/** The pruner: one pass over the request log under every use case's clock. */
module Retention {
  import opened RequestLog
  import Sql
  import opened Wrappers

  datatype PruneResult = PruneResult(payloadsCleared: nat, rowsDeleted: nat)

  datatype RetentionRun = RetentionRun(ranAt: int, payloadsCleared: nat, rowsDeleted: nat)

  /** What one pass decides with: the use cases, both periods in days, and the time. */
  datatype Pass = Pass(useCases: map<string, UseCase>, defaultDays: int, logDays: int, now: int)

  // ---- one row under one pass -----------------------------------------------------------

  /** A use case's period in days, or `None` where storage is switched off. */
  function Period(u: UseCase, defaultDays: int): Option<int> {
    if !u.storePayloads then None else Some(Max(1, OrDefault(u.retentionDays, defaultDays)))
  }

  /** The moment before which a row of this use case loses its payload. */
  function Cutoff(useCase: Option<string>, p: Pass): int {
    if useCase.Some? && useCase.value in p.useCases then
      match Period(p.useCases[useCase.value], p.defaultDays)
      case None => p.now
      case Some(days) => p.now - days * DAY
    else p.now - p.defaultDays * DAY
  }

  predicate PastCutoff(row: Row, p: Pass) {
    row.createdAt < Cutoff(row.useCase, p)
  }

  predicate PastRecord(row: Row, p: Pass) {
    p.logDays > 0 && row.createdAt < p.now - p.logDays * DAY
  }

  /** What becomes of one row, `None` when it is deleted. */
  function PruneRow(row: Row, p: Pass): Option<Row> {
    if PastRecord(row, p) then None
    else if PastCutoff(row, p) then Some(row.Cleared())
    else Some(row)
  }

  function Pruned(log: seq<Row>, p: Pass): seq<Row> {
    if |log| == 0 then []
    else
      match PruneRow(log[0], p)
      case None => Pruned(log[1..], p)
      case Some(row) => [row] + Pruned(log[1..], p)
  }

  /** How many rows lose a payload in the pass. */
  function Clearable(log: seq<Row>, p: Pass): nat {
    if |log| == 0 then 0
    else Clearable(log[1..], p) + if log[0].HasPayload() && PastCutoff(log[0], p) then 1 else 0
  }

  function Deletable(log: seq<Row>, p: Pass): nat {
    if |log| == 0 then 0
    else Deletable(log[1..], p) + if PastRecord(log[0], p) then 1 else 0
  }

  // ---- the statements of a pass ---------------------------------------------------------

  /** The WHERE clause of one UPDATE: a named use case, or none and every slug outside `unknown`. */
  datatype Filter = Filter(useCase: Option<string>, cutoff: int, unknown: Option<set<string>>)

  function Criterion(row: Row, f: Filter): Sql.Truth {
    var named := match f.useCase
      case None => Sql.Of(row.useCase.None?)
      case Some(slug) => Sql.Equals(row.useCase, slug);
    if f.useCase.None? && f.unknown.Some? then Sql.Or(named, Sql.NotIn(row.useCase, f.unknown.value)) else named
  }

  predicate Selects(row: Row, f: Filter) {
    Sql.And(Criterion(row, f), Sql.And(Sql.Of(row.createdAt < f.cutoff),
        Sql.Or(Sql.Of(row.requestPayload.Some?), Sql.Of(row.responsePayload.Some?)))) == Sql.True
  }

  function Update(log: seq<Row>, f: Filter): seq<Row> {
    if |log| == 0 then []
    else [if Selects(log[0], f) then log[0].Cleared() else log[0]] + Update(log[1..], f)
  }

  function Affected(log: seq<Row>, f: Filter): nat {
    if |log| == 0 then 0 else Affected(log[1..], f) + if Selects(log[0], f) then 1 else 0
  }

  function Delete(log: seq<Row>, cutoff: int): seq<Row> {
    if |log| == 0 then []
    else (if log[0].createdAt < cutoff then [] else [log[0]]) + Delete(log[1..], cutoff)
  }

  /** What a statement is for: a row of its use case, or of none that is known, older than the cutoff,
      that still has a payload. */
  predicate Expired(row: Row, f: Filter) {
    && (match f.useCase
        case Some(slug) => row.useCase == Some(slug)
        case None => row.useCase.None? || (f.unknown.Some? && row.useCase.value !in f.unknown.value))
    && row.createdAt < f.cutoff && row.HasPayload()
  }

  /** The WHERE clause selects just these, under three-valued logic. */
  lemma SelectsTheExpired(row: Row, f: Filter)
    ensures Selects(row, f) <==> Expired(row, f)
  {
  }

  /** How many rows hold a payload. */
  function WithPayload(log: seq<Row>): nat {
    if |log| == 0 then 0 else WithPayload(log[1..]) + if log[0].HasPayload() then 1 else 0
  }

  lemma {:induction false} UpdateIsPointwise(log: seq<Row>, f: Filter)
    ensures |Update(log, f)| == |log|
    ensures forall i :: 0 <= i < |log| ==> Update(log, f)[i] == if Expired(log[i], f) then log[i].Cleared() else log[i]
  {
    if log != [] {
      UpdateIsPointwise(log[1..], f);
      SelectsTheExpired(log[0], f);
      hide Expired, Selects;
      assert forall i :: 1 <= i < |log| ==>
               Update(log, f)[i] == Update(log[1..], f)[i - 1] && log[i] == log[1..][i - 1];
    }
  }

  lemma {:induction false} AffectedLosePayload(log: seq<Row>, f: Filter)
    ensures WithPayload(Update(log, f)) + Affected(log, f) == WithPayload(log)
  {
    if log != [] {
      AffectedLosePayload(log[1..], f);
      SelectsTheExpired(log[0], f);
      hide Selects;
      assert Update(log, f)[1..] == Update(log[1..], f);
    }
  }

  /** A log changed so, and a count of the rows that lost a payload, are what the passes add up. */
  lemma UpdatedLog(log: seq<Row>, after: seq<Row>, f: Filter, n: nat)
    requires |after| == |log| && WithPayload(after) + n == WithPayload(log)
    requires forall i :: 0 <= i < |log| ==>
               if Expired(log[i], f) then after[i] == log[i].Cleared() else after[i] == log[i]
    ensures after == Update(log, f) && n == Affected(log, f)
  {
    UpdateIsPointwise(log, f);
    AffectedLosePayload(log, f);
    assert after == Update(log, f);
  }

  class Database {
    var log: seq<Row>
    var useCases: map<string, UseCase>
    var runs: seq<RetentionRun>

    constructor (log: seq<Row>, useCases: map<string, UseCase>)
      ensures this.log == log && this.useCases == useCases && runs == []
    {
      this.log, this.useCases, runs := log, useCases, [];
    }
  }

  class RetentionService {
    const database: Database
    const defaultDays: int
    const logDays: int

    constructor (database: Database, defaultRetentionDays: int, logRetentionDays: int)
      ensures this.database == database
      ensures defaultDays == Max(1, defaultRetentionDays) && logDays == Max(0, logRetentionDays)
    {
      this.database := database;
      defaultDays, logDays := Max(1, defaultRetentionDays), Max(0, logRetentionDays);
    }

    function PassAt(now: int): Pass
      reads database
    {
      Pass(database.useCases, defaultDays, logDays, now)
    }

    method ClearPayloads(f: Filter) returns (cleared: nat)
      modifies database`log
      ensures |database.log| == |old(database.log)|
      ensures forall i :: 0 <= i < |database.log| ==>
                if Expired(old(database.log)[i], f) then database.log[i] == old(database.log)[i].Cleared()
                else database.log[i] == old(database.log)[i]
      ensures WithPayload(database.log) + cleared == WithPayload(old(database.log))
    {
      UpdateIsPointwise(database.log, f);
      AffectedLosePayload(database.log, f);
      cleared := Affected(database.log, f);
      database.log := Update(database.log, f);
    }

    /** One pass. The use cases are visited in whatever order the query returns them. */
    method Prune(now: int) returns (result: PruneResult)
      modifies database`log, database`runs
      ensures database.log == Pruned(old(database.log), old(PassAt(now)))
      ensures result == PruneResult(Clearable(old(database.log), old(PassAt(now))),
                                    Deletable(old(database.log), old(PassAt(now))))
      ensures database.runs == old(database.runs) + [RetentionRun(now, result.payloadsCleared, result.rowsDeleted)]
    {
      hide Expired, WithPayload, Pruned, Clearable, Deletable, SoFar, CountSoFar, Update, Affected, Delete;
      ghost var p := PassAt(now);
      ghost var before := database.log;
      var periods := map slug | slug in database.useCases :: Period(database.useCases[slug], defaultDays);
      var cleared := 0;
      var todo := periods.Keys;
      NothingDone(before, p);
      assert periods.Keys - todo == {};
      while todo != {}
        invariant todo <= periods.Keys && database.runs == old(database.runs)
        invariant database.log == SoFar(before, p, periods.Keys - todo, false)
        invariant cleared == CountSoFar(before, p, periods.Keys - todo, false)
      {
        var slug :| slug in todo;
        var cutoff := if periods[slug].None? then now else now - periods[slug].value * DAY;
        NextUseCase(before, p, periods.Keys - todo, slug);
        assert periods.Keys - (todo - {slug}) == (periods.Keys - todo) + {slug};
        ghost var log := database.log;
        var n := ClearPayloads(Filter(Some(slug), cutoff, None));
        UpdatedLog(log, database.log, Filter(Some(slug), cutoff, None), n);
        cleared, todo := cleared + n, todo - {slug};
      }
      assert periods.Keys - todo == p.useCases.Keys == periods.Keys;
      TheOthers(before, p);
      ghost var log := database.log;
      var n := ClearPayloads(Filter(None, now - defaultDays * DAY, Some(periods.Keys)));
      UpdatedLog(log, database.log, Filter(None, now - defaultDays * DAY, Some(periods.Keys)), n);
      cleared := cleared + n;

      var deleted: nat := 0;
      AllDone(before, p);
      assert database.log == SoFar(before, p, p.useCases.Keys, true);
      if logDays > 0 {
        deleted := |database.log| - |Delete(database.log, now - logDays * DAY)|;
        database.log := Delete(database.log, now - logDays * DAY);
      }
      database.runs := database.runs + [RetentionRun(now, cleared, deleted)];
      return PruneResult(cleared, deleted);
    }
  }

  // ---- the passes partition the table ---------------------------------------------------

  /** The row belongs to one of the use cases already visited, or to none of the known ones. */
  predicate Visited(row: Row, p: Pass, done: set<string>, others: bool) {
    if row.useCase.Some? && row.useCase.value in p.useCases then row.useCase.value in done else others
  }

  function SoFar(log: seq<Row>, p: Pass, done: set<string>, others: bool): seq<Row> {
    if |log| == 0 then []
    else [if Visited(log[0], p, done, others) && PastCutoff(log[0], p) then log[0].Cleared() else log[0]]
         + SoFar(log[1..], p, done, others)
  }

  function CountSoFar(log: seq<Row>, p: Pass, done: set<string>, others: bool): nat {
    if |log| == 0 then 0
    else CountSoFar(log[1..], p, done, others) +
         if Visited(log[0], p, done, others) && PastCutoff(log[0], p) && log[0].HasPayload() then 1 else 0
  }

  lemma {:induction false} NothingDone(log: seq<Row>, p: Pass)
    ensures SoFar(log, p, {}, false) == log && CountSoFar(log, p, {}, false) == 0
  {
    if log != [] {
      NothingDone(log[1..], p);
      assert log == [log[0]] + log[1..];
    }
  }

  lemma {:induction false} NextUseCase(log: seq<Row>, p: Pass, done: set<string>, slug: string)
    requires slug in p.useCases && slug !in done
    ensures var f := Filter(Some(slug), Cutoff(Some(slug), p), None);
            && Update(SoFar(log, p, done, false), f) == SoFar(log, p, done + {slug}, false)
            && CountSoFar(log, p, done, false) + Affected(SoFar(log, p, done, false), f)
               == CountSoFar(log, p, done + {slug}, false)
  {
    if log != [] {
      NextUseCase(log[1..], p, done, slug);
    }
  }

  lemma {:induction false} TheOthers(log: seq<Row>, p: Pass)
    ensures var f := Filter(None, p.now - p.defaultDays * DAY, Some(p.useCases.Keys));
            && Update(SoFar(log, p, p.useCases.Keys, false), f) == SoFar(log, p, p.useCases.Keys, true)
            && CountSoFar(log, p, p.useCases.Keys, false) + Affected(SoFar(log, p, p.useCases.Keys, false), f)
               == CountSoFar(log, p, p.useCases.Keys, true)
  {
    if log != [] {
      TheOthers(log[1..], p);
    }
  }

  lemma {:induction false} AllDone(log: seq<Row>, p: Pass)
    ensures CountSoFar(log, p, p.useCases.Keys, true) == Clearable(log, p)
    ensures var done := SoFar(log, p, p.useCases.Keys, true);
            if p.logDays > 0
            then Delete(done, p.now - p.logDays * DAY) == Pruned(log, p) &&
                 |done| - |Delete(done, p.now - p.logDays * DAY)| == Deletable(log, p)
            else done == Pruned(log, p) && Deletable(log, p) == 0
  {
    if log != [] {
      AllDone(log[1..], p);
    }
  }

  // ---- what a pass keeps ----------------------------------------------------------------

  /** Same installation, a pass at another time. */
  predicate SameRules(p: Pass, q: Pass) {
    p.useCases == q.useCases && p.defaultDays == q.defaultDays && p.logDays == q.logDays
  }

  /** The row is as it was, both payloads gone where they are to go. */
  ghost predicate IsLeft(row: Row, was: Row, gone: bool) {
    && row.createdAt == was.createdAt && row.subject == was.subject && row.username == was.username
    && row.useCase == was.useCase && row.operation == was.operation && row.outcome == was.outcome
    && row.status == was.status && row.metadata == was.metadata
    && row.requestPayload == (if gone then None else was.requestPayload)
    && row.responsePayload == (if gone then None else was.responsePayload)
  }

  /** A pass touches payloads and nothing else of the rows it keeps, in their order. */
  lemma {:induction false} MetadataSurvives(log: seq<Row>, p: Pass)
    ensures |Pruned(log, p)| + Deletable(log, p) == |log|
    ensures forall row :: row in Pruned(log, p) ==>
              exists was :: was in log && !PastRecord(was, p) && IsLeft(row, was, PastCutoff(was, p))
  {
    if log != [] {
      MetadataSurvives(log[1..], p);
      forall row | row in Pruned(log, p)
        ensures exists was :: was in log && !PastRecord(was, p) && IsLeft(row, was, PastCutoff(was, p))
      {
        if row in Pruned(log[1..], p) {
          var was :| was in log[1..] && !PastRecord(was, p) && IsLeft(row, was, PastCutoff(was, p));
          assert was in log;
        } else {
          assert log[0] in log && IsLeft(row, log[0], PastCutoff(log[0], p));
        }
      }
    }
  }

  /** An earlier pass leaves no trace in the log a later pass leaves. */
  lemma {:induction false} EarlierPassAbsorbed(log: seq<Row>, p: Pass, q: Pass)
    requires SameRules(p, q) && p.now <= q.now
    ensures Pruned(Pruned(log, p), q) == Pruned(log, q)
    ensures Deletable(log, p) + Deletable(Pruned(log, p), q) == Deletable(log, q)
  {
    if log != [] {
      EarlierPassAbsorbed(log[1..], p, q);
      var rest := Pruned(log[1..], p);
      match PruneRow(log[0], p)
      case None =>
      case Some(row) => assert ([row] + rest)[1..] == rest;
    }
  }

  /** Passes one after another, each over the log the one before left. */
  function AfterPasses(log: seq<Row>, passes: seq<Pass>): seq<Row> {
    if |passes| == 0 then log
    else Pruned(AfterPasses(log, passes[..|passes| - 1]), passes[|passes| - 1])
  }

  function DeletedBy(log: seq<Row>, passes: seq<Pass>): nat {
    if |passes| == 0 then 0
    else
      var before := passes[..|passes| - 1];
      DeletedBy(log, before) + Deletable(AfterPasses(log, before), passes[|passes| - 1])
  }

  /** Under unchanged rules a whole run of passes, whenever each of them came, leaves the log and
      deletes the rows that its last pass alone would. */
  lemma {:induction false} OnlyTheLastPassShows(log: seq<Row>, passes: seq<Pass>)
    requires passes != []
    requires forall i, j :: 0 <= i < j < |passes| ==> SameRules(passes[i], passes[j]) && passes[i].now <= passes[j].now
    ensures AfterPasses(log, passes) == Pruned(log, passes[|passes| - 1])
    ensures DeletedBy(log, passes) == Deletable(log, passes[|passes| - 1])
  {
    var before, last := passes[..|passes| - 1], passes[|passes| - 1];
    if before == [] {
      assert AfterPasses(log, before) == log;
    } else {
      OnlyTheLastPassShows(log, before);
      EarlierPassAbsorbed(log, before[|before| - 1], last);
    }
  }

  /** A second pass at the same time clears nothing and deletes nothing. */
  lemma {:induction false} SecondPassDoesNothing(log: seq<Row>, p: Pass)
    ensures Pruned(Pruned(log, p), p) == Pruned(log, p)
    ensures Clearable(Pruned(log, p), p) == 0 && Deletable(Pruned(log, p), p) == 0
  {
    if log != [] {
      SecondPassDoesNothing(log[1..], p);
      var rest := Pruned(log[1..], p);
      match PruneRow(log[0], p)
      case None =>
      case Some(row) => assert ([row] + rest)[1..] == rest;
    }
  }

  /** A row cleared by an earlier pass is not counted again, so two passes never count more clearings
      than the later one alone; fewer when the record clock took a row first. */
  lemma {:induction false} ClearingsCountedOnce(log: seq<Row>, p: Pass, q: Pass)
    requires SameRules(p, q) && p.now <= q.now
    ensures Clearable(log, p) + Clearable(Pruned(log, p), q) <= Clearable(log, q)
    ensures p.logDays == 0 ==> Clearable(log, p) + Clearable(Pruned(log, p), q) == Clearable(log, q)
  {
    if log != [] {
      ClearingsCountedOnce(log[1..], p, q);
      var rest := Pruned(log[1..], p);
      match PruneRow(log[0], p)
      case None =>
      case Some(row) => assert ([row] + rest)[1..] == rest;
    }
  }
}
