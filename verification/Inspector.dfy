/** The inspector's capped ring buffer of arrivals, and the counters that outlive it. */
module Inspector {
  import opened Gunzip
  import opened HecEvents
  import opened Octets
  import opened RecordCount
  import opened Wrappers

  datatype Signal = Traces | Metrics | Logs | Hec

  /** One POST. `body` is empty unless it could be read, and `records` counts what was read. */
  datatype Arrival = Arrival(
    number: nat, at: real, signal: Signal, onWire: nat, decoded: nat, body: string, records: nat)

  /** The library calls: `zlib`, `bytes.decode`, `json.loads`, `raw_decode`, and the truth of a number. */
  datatype Library = Library(
    zlib: Bytes -> Stream,
    utf8: Bytes -> Option<string>,
    loads: string -> Decoding<Value<Document>>,
    decoder: Decoder<Document>,
    isZero: string -> bool)

  /** Where each signal but HEC keeps its records. */
  function ShapeOf(signal: Signal): Shape {
    match signal
    case Traces => Shape("resourceSpans", "scopeSpans", "spans")
    case Logs => Shape("resourceLogs", "scopeLogs", "logRecords")
    case _ => Shape("resourceMetrics", "scopeMetrics", "metrics")
  }

  // ---- what a history of arrivals adds up to --------------------------------------------

  /** Arrivals are numbered from one, in the order they came. */
  ghost predicate Numbered(history: seq<Arrival>) {
    forall i :: 0 <= i < |history| ==> history[i].number == i + 1
  }

  function KeptOf(total: nat, keep: nat): nat {
    if total <= keep then total else keep
  }

  function Newest(history: seq<Arrival>, keep: nat): seq<Arrival> {
    history[|history| - KeptOf(|history|, keep)..]
  }

  function Batches(history: seq<Arrival>, signal: Signal): nat {
    if |history| == 0 then 0
    else Batches(history[..|history| - 1], signal) + if history[|history| - 1].signal == signal then 1 else 0
  }

  function Records(history: seq<Arrival>, signal: Signal): nat {
    if |history| == 0 then 0
    else Records(history[..|history| - 1], signal) +
         if history[|history| - 1].signal == signal then history[|history| - 1].records else 0
  }

  /** The counters of one signal say how many batches and how many records there ever were. */
  ghost predicate Tallied(totals: map<Signal, nat>, records: map<Signal, nat>, history: seq<Arrival>, s: Signal) {
    && s in totals && totals[s] == Batches(history, s)
    && s in records && records[s] == Records(history, s)
  }

  ghost predicate Tally(totals: map<Signal, nat>, records: map<Signal, nat>, history: seq<Arrival>) {
    && Tallied(totals, records, history, Traces) && Tallied(totals, records, history, Metrics)
    && Tallied(totals, records, history, Logs) && Tallied(totals, records, history, Hec)
  }

  /** `dict.fromkeys(SIGNALS, 0)`. */
  function Zeros(): map<Signal, nat> {
    map[Traces := 0, Metrics := 0, Logs := 0, Hec := 0]
  }

  lemma NothingCounted(history: seq<Arrival>)
    requires |history| == 0
    ensures Tally(Zeros(), Zeros(), history)
  {
  }

  /** What an inspector holds after a history of arrivals. */
  ghost predicate Holds(arrivals: seq<Arrival>, next: nat, totals: map<Signal, nat>, records: map<Signal, nat>,
                        history: seq<Arrival>, keep: nat) {
    && Numbered(history) && next == |history| + 1
    && arrivals == Newest(history, keep)
    && Tally(totals, records, history)
  }

  lemma HoldsNothing(history: seq<Arrival>, keep: nat)
    requires |history| == 0
    ensures Holds(history, 1, Zeros(), Zeros(), history, keep)
  {
    NothingCounted(history);
    hide Tally, Zeros;
    assert Newest(history, keep) == history;
  }

  lemma TallyStep(totals: map<Signal, nat>, records: map<Signal, nat>, history: seq<Arrival>, a: Arrival)
    requires Tally(totals, records, history)
    ensures a.signal in totals && a.signal in records
    ensures Tally(totals[a.signal := totals[a.signal] + 1], records[a.signal := records[a.signal] + a.records],
                  history + [a])
  {
    assert (history + [a])[..|history|] == history;
    match a.signal case Traces => case Metrics => case Logs => case Hec =>
  }

  /** `deque(maxlen=keep).append`. */
  function Append(arrivals: seq<Arrival>, keep: nat, arrival: Arrival): seq<Arrival> {
    if keep == 0 then []
    else if |arrivals| < keep then arrivals + [arrival]
    else arrivals[|arrivals| + 1 - keep..] + [arrival]
  }

  /** Appending to the newest of a history gives the newest of the longer one. */
  lemma RingHoldsNewest(history: seq<Arrival>, keep: nat, arrival: Arrival)
    ensures Append(Newest(history, keep), keep, arrival) == Newest(history + [arrival], keep)
  {
  }

  /** One more arrival, numbered, counted and appended, and everything held still holds. */
  lemma HoldsOneMore(arrivals: seq<Arrival>, next: nat, totals: map<Signal, nat>, records: map<Signal, nat>,
                     history: seq<Arrival>, keep: nat, a: Arrival)
    requires Holds(arrivals, next, totals, records, history, keep) && a.number == next
    ensures a.signal in totals && a.signal in records
    ensures Holds(Append(arrivals, keep, a), next + 1,
                  totals[a.signal := totals[a.signal] + 1], records[a.signal := records[a.signal] + a.records],
                  history + [a], keep)
  {
    TallyStep(totals, records, history, a);
    RingHoldsNewest(history, keep, a);
    hide Tally, Newest, Append;
  }

  /** The first kept arrival of a number. */
  function FindIn(arrivals: seq<Arrival>, number: nat): Option<Arrival> {
    if |arrivals| == 0 then None
    else if arrivals[0].number == number then Some(arrivals[0])
    else FindIn(arrivals[1..], number)
  }

  /** Looking up a number succeeds for exactly the newest arrivals, and finds the one that got it. */
  lemma {:induction false} FindsExactlyTheKept(history: seq<Arrival>, from: nat, number: nat)
    requires Numbered(history) && from <= |history|
    ensures FindIn(history[from..], number) ==
            if from < number <= |history| then Some(history[number - 1]) else None
    decreases |history| - from
  {
    if from < |history| {
      assert history[from..][1..] == history[from + 1..];
      FindsExactlyTheKept(history, from + 1, number);
    }
  }

  /** Every arrival, kept or evicted, is counted under exactly one signal. */
  lemma {:induction false} EveryArrivalCountedOnce(history: seq<Arrival>)
    ensures Batches(history, Traces) + Batches(history, Metrics) + Batches(history, Logs) + Batches(history, Hec)
            == |history|
  {
    if history != [] {
      EveryArrivalCountedOnce(history[..|history| - 1]);
    }
  }

  // ---- reading one body -----------------------------------------------------------------

  /** The bytes are the body `text` and it carries `count` records: a run of that many objects for HEC,
      and for the other signals, where the content is JSON, one object with that many records. */
  ghost predicate Readable(lib: Library, signal: Signal, json: bool, bytes: Bytes, text: string, count: nat) {
    && lib.utf8(bytes) == Some(text)
    && if signal == Hec then exists docs :: |docs| == count && IsSomeRun(lib.decoder, text, docs)
       else json && exists doc :: IsCounted(lib, signal, text, doc, count)
  }

  /** Where the protocol puts a signal's records: every list is named after the signal. */
  ghost function PathOf(signal: Signal): Shape {
    var plural := match signal case Traces => "Spans" case Logs => "Logs" case _ => "Metrics";
    var leaves := match signal case Traces => "spans" case Logs => "logRecords" case _ => "metrics";
    Shape("resource" + plural, "scope" + plural, leaves)
  }

  lemma ShapeIsThePath(signal: Signal)
    requires signal != Hec
    ensures ShapeOf(signal) == PathOf(signal)
  {
  }

  /** The text is one object of the signal's shape, and has records in that many places. */
  ghost predicate IsCounted(lib: Library, signal: Signal, text: string, doc: Document, count: nat) {
    && lib.loads(text) == Decoded(Object(doc))
    && WellShaped(doc, PathOf(signal), lib.isZero) && HasRecords(doc, PathOf(signal), count)
  }

  /** Reading these bytes raises what is no `ValueError`: a value among the events, or the document, is
      nested too deep, or the document is one object that is not shaped as its signal's. */
  ghost predicate Raising(lib: Library, signal: Signal, json: bool, bytes: Bytes)
    requires Advances(lib.decoder)
  {
    && lib.utf8(bytes).Some?
    && var text := lib.utf8(bytes).value;
       if signal == Hec then exists at :: IsFaulty(lib.decoder, text, NestedTooDeep(at))
       else json && (lib.loads(text).TooDeep? || exists doc :: Misshapen(lib, signal, text, doc))
  }

  ghost predicate Misshapen(lib: Library, signal: Signal, text: string, doc: Document) {
    lib.loads(text) == Decoded(Object(doc)) && !WellShaped(doc, PathOf(signal), lib.isZero)
  }

  /** What reading the bytes comes to: the text and its records if they are readable, an exception that
      leaves the reader if there is one, and otherwise neither text nor records. */
  ghost predicate ReadsAs(lib: Library, signal: Signal, json: bool, bytes: Bytes, read: Option<(string, nat)>)
    requires Advances(lib.decoder)
  {
    match read
    case None => Raising(lib, signal, json, bytes)
    case Some((text, count)) =>
      || Readable(lib, signal, json, bytes, text, count)
      || (text == "" && count == 0 && !Raising(lib, signal, json, bytes)
          && forall t, n :: !Readable(lib, signal, json, bytes, t, n))
  }

  /** That is one answer for any bytes. */
  lemma ReadsOneWay(lib: Library, signal: Signal, json: bool, bytes: Bytes,
                    one: Option<(string, nat)>, other: Option<(string, nat)>)
    requires Advances(lib.decoder)
    requires ReadsAs(lib, signal, json, bytes, one) && ReadsAs(lib, signal, json, bytes, other)
    ensures one == other
  {
    forall t, m, u, n | Readable(lib, signal, json, bytes, t, m) && Readable(lib, signal, json, bytes, u, n)
      ensures t == u && m == n
    {
      ReadableOnce(lib, signal, json, bytes, t, m, u, n);
    }
    forall t, n | Readable(lib, signal, json, bytes, t, n) ensures !Raising(lib, signal, json, bytes) {
      ReadableIsShaped(lib, signal, json, bytes, t, n);
    }
    hide Readable, Raising;
  }

  lemma ReadableOnce(lib: Library, signal: Signal, json: bool, bytes: Bytes, t: string, m: nat, u: string, n: nat)
    requires Advances(lib.decoder)
    requires Readable(lib, signal, json, bytes, t, m) && Readable(lib, signal, json, bytes, u, n)
    ensures t == u && m == n
  {
    hide WellShaped, HasRecords, IsSomeRun, PathOf;
    if signal != Hec {
      var doc :| IsCounted(lib, signal, t, doc, m);
      CountsTheRecords(doc, PathOf(signal), lib.isZero, m);
      CountsTheRecords(doc, PathOf(signal), lib.isZero, n);
    } else {
      var xs :| |xs| == m && IsSomeRun(lib.decoder, t, xs);
      var ys :| |ys| == n && IsSomeRun(lib.decoder, t, ys);
      ReadsExactlyRuns(lib.decoder, t, xs);
      ReadsExactlyRuns(lib.decoder, t, ys);
    }
  }

  lemma ReadableIsShaped(lib: Library, signal: Signal, json: bool, bytes: Bytes, text: string, count: nat)
    requires Advances(lib.decoder) && Readable(lib, signal, json, bytes, text, count)
    ensures !Raising(lib, signal, json, bytes)
  {
    if signal == Hec {
      var docs :| |docs| == count && IsSomeRun(lib.decoder, text, docs);
      ReadsExactlyRuns(lib.decoder, text, docs);
      forall at | IsFaulty(lib.decoder, text, NestedTooDeep(at)) ensures false {
        RefusesExactlyFaults(lib.decoder, text, NestedTooDeep(at));
      }
    } else {
      var doc :| IsCounted(lib, signal, text, doc, count);
    }
    hide WellShaped, EventsFrom, IsSomeRun, IsFaulty, PathOf;
  }

  /** What a body is taken for: the bytes as they came, or inflated, or more than the limit. */
  ghost predicate Taken(zlib: Bytes -> Stream, raw: Bytes, gzip: bool, limit: nat, body: Bytes, size: nat)
    requires Consumes(zlib)
  {
    if !gzip || limit < |raw| then body == raw && size == |raw|
    else if Whole(zlib, raw) && |Plain(zlib, raw)| <= limit then body == Plain(zlib, raw) && size == |body|
    else
      || (!Whole(zlib, raw) && body == raw && size == |raw|)
      || (body == [] && limit < size <= limit + 65_536 && size <= |Plain(zlib, raw)|)
  }

  class Inspector {
    const lib: Library
    const keep: nat
    const maxBody: nat
    var arrivals: seq<Arrival>
    var next: nat
    var totals: map<Signal, nat>
    var records: map<Signal, nat>
    /** Every arrival there ever was, evicted ones included. */
    ghost var history: seq<Arrival>

    ghost predicate Valid()
      reads this
    {
      && Consumes(lib.zlib) && Advances(lib.decoder)
      && Holds(arrivals, next, totals, records, history, keep)
    }

    constructor (lib: Library, keep: nat, maxBody: nat)
      requires Consumes(lib.zlib) && Advances(lib.decoder)
      ensures Valid() && history == [] && this.lib == lib && this.keep == keep && this.maxBody == maxBody
    {
      hide Holds, Zeros;
      this.lib, this.keep, this.maxBody := lib, keep, maxBody;
      arrivals, next, history := [], 1, [];
      totals, records := Zeros(), Zeros();
      HoldsNothing([], keep);
    }

    /** Number, count and keep one arrival. */
    method Keep(unnumbered: Arrival) returns (arrival: Arrival)
      requires Valid()
      modifies this
      ensures Valid()
      ensures arrival == unnumbered.(number := |old(history)| + 1)
      ensures history == old(history) + [arrival]
    {
      arrival := unnumbered.(number := next);
      assert next == |history| + 1;
      HoldsOneMore(arrivals, next, totals, records, history, keep, arrival);
      hide Holds, Append, Advances, Consumes;
      next, totals, records, arrivals, history :=
        next + 1,
        totals[arrival.signal := totals[arrival.signal] + 1],
        records[arrival.signal := records[arrival.signal] + arrival.records],
        Append(arrivals, keep, arrival),
        history + [arrival];
    }

    /** Keep one batch. Where reading it raises past the reader, nothing is numbered, counted or kept. */
    method Record(signal: Signal, raw: Bytes, json: bool, gzip: bool, at: real)
      returns (arrival: Option<Arrival>, ghost body: Bytes, ghost size: nat)
      requires Valid()
      modifies this
      ensures Valid() && Taken(lib.zlib, raw, gzip, maxBody, body, size)
      ensures arrival.None? ==> unchanged(this)
      ensures arrival.Some? ==>
        var a := arrival.value;
        && history == old(history) + [a]
        && a.signal == signal && a.at == at && a.onWire == |raw| && a.decoded == size
        && (maxBody < size ==> a.body == "" && a.records == 0)
      ensures maxBody < size ==> arrival.Some?
      ensures size <= maxBody ==>
        ReadsAs(lib, signal, json, body,
                if arrival.None? then None else Some((arrival.value.body, arrival.value.records)))
    {
      var taken, length := raw, |raw|;
      if gzip && length <= maxBody {
        var inflated, _ := Inflate(lib.zlib, raw, maxBody);
        if inflated.Some? {
          taken, length := inflated.value.0, inflated.value.1;
        }
      }
      body, size := taken, length;
      var read := Some(("", 0));
      if length <= maxBody {
        read := Read(signal, json, taken);
      }
      if read.None? {
        return None, body, size;
      }
      var kept := Keep(Arrival(0, at, signal, |raw|, length, read.value.0, read.value.1));
      arrival := Some(kept);
    }

    /** The text and the record count of a body, `None` for the exception. */
    method Read(signal: Signal, json: bool, bytes: Bytes) returns (read: Option<(string, nat)>)
      requires Advances(lib.decoder)
      ensures ReadsAs(lib, signal, json, bytes, read)
    {
      hide CountRecords, WellShaped, HasRecords, IsSomeRun, IsFaulty;
      read := Some(("", 0));
      var text := lib.utf8(bytes);
      if text.None? {
        return;
      }
      if signal == Hec {
        var events := ReadEvents(lib.decoder, text.value);
        ReadsOrRefuses(lib.decoder, text.value);
        hide EventsFrom;
        if events.Ok? {
          return Some((text.value, |events.value|));
        }
        if events.error.NestedTooDeep? {
          assert IsFaulty(lib.decoder, text.value, NestedTooDeep(events.error.at));
          return None;
        }
      } else if json {
        var document := lib.loads(text.value);
        if document.TooDeep? {
          return None;
        }
        if document.Decoded? && document.value.Object? {
          var doc := document.value.doc;
          var count := CountRecords(doc, ShapeOf(signal), lib.isZero);
          ShapeIsThePath(signal);
          hide ShapeOf, PathOf;
          CountedExactlyWhen(doc, PathOf(signal), lib.isZero);
          if count.None? {
            assert Misshapen(lib, signal, text.value, doc);
            return None;
          }
          CountsTheRecords(doc, PathOf(signal), lib.isZero, count.value);
          assert IsCounted(lib, signal, text.value, doc, count.value);
          return Some((text.value, count.value));
        }
      }
    }

    /** Count a batch that was refused unread. */
    method Refuse(signal: Signal, declared: nat, at: real) returns (arrival: Arrival)
      requires Valid()
      modifies this
      ensures Valid() && history == old(history) + [arrival]
      ensures arrival == Arrival(|old(history)| + 1, at, signal, declared, 0, "", 0)
    {
      arrival := Keep(Arrival(0, at, signal, declared, 0, "", 0));
    }

    /** The newest `keep` arrivals, newest first. */
    method Arrivals() returns (listed: seq<Arrival>)
      requires Valid()
      ensures |listed| == KeptOf(|history|, keep)
      ensures forall i :: 0 <= i < |listed| ==> listed[i] == history[|history| - 1 - i]
    {
      listed := [];
      var n := |arrivals|;
      while 0 < n
        invariant 0 <= n <= |arrivals| && |listed| == |arrivals| - n
        invariant forall i :: 0 <= i < |listed| ==> listed[i] == arrivals[|arrivals| - 1 - i]
      {
        n := n - 1;
        listed := listed + [arrivals[n]];
      }
    }

    method Find(number: nat) returns (found: Option<Arrival>)
      requires Valid()
      ensures found == if |history| - KeptOf(|history|, keep) < number <= |history|
                       then Some(history[number - 1]) else None
    {
      FindsExactlyTheKept(history, |history| - KeptOf(|history|, keep), number);
      hide Tally, Numbered, Advances, Consumes;
      for i := 0 to |arrivals|
        invariant FindIn(arrivals, number) == FindIn(arrivals[i..], number)
      {
        if arrivals[i].number == number {
          return Some(arrivals[i]);
        }
        assert arrivals[i..][1..] == arrivals[i + 1..];
      }
      return None;
    }

    method Summary() returns (kept: nat, batches: map<Signal, nat>, counted: map<Signal, nat>, last: Option<real>)
      requires Valid()
      ensures kept == KeptOf(|history|, keep)
      ensures Tally(batches, counted, history)
      ensures last == if kept == 0 then None else Some(history[|history| - 1].at)
    {
      kept, batches, counted := |arrivals|, totals, records;
      last := if |arrivals| == 0 then None else Some(arrivals[|arrivals| - 1].at);
    }
  }
}
