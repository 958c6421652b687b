/** The pruner and the reader over one clock: what a pass removes is what the reader reports removed. */
module Lifecycle {
  import opened Payloads
  import opened RequestLog
  import opened Retention
  import opened Wrappers

  /** The pass an installation with this read-model and default period runs at `now`. */
  function PassOf(db: ReadModel, defaultDays: int, logDays: int, now: int): Pass {
    Pass(db.useCases, Max(1, defaultDays), Max(0, logDays), now)
  }

  /** The pruner's cutoff and the reader's clock say the same of every row, for every period and
      default, unless the use case stores nothing and the row is younger than its period. */
  lemma OneClock(db: ReadModel, row: Row, defaultDays: int, logDays: int, now: int)
    ensures var useCase := UseCaseOf(db, row);
            PastCutoff(row, PassOf(db, defaultDays, logDays, now)) == IsPastRetention(row, useCase, defaultDays, now)
            <==> useCase.None? || useCase.value.storePayloads
                 || row.createdAt >= now || IsPastRetention(row, useCase, defaultDays, now)
  {
  }

  /** The record clock deletes a row exactly when it is set and more than its days have gone by. */
  lemma RecordClock(db: ReadModel, row: Row, defaultDays: int, logDays: int, now: int)
    ensures PruneRow(row, PassOf(db, defaultDays, logDays, now)).None? <==>
            0 < logDays && row.createdAt + logDays * 86_400 * 1_000_000 < now
  {
    assert logDays * 86_400 * 1_000_000 == logDays * DAY;
  }

  /** After a pass a caller may read what they could read before, short of the rows past their clock. */
  lemma PassTakesExactlyTheExpired(db: ReadModel, principal: Principal, was: Row,
                                   strict: bool, defaultDays: int, logDays: int, now: int)
    ensures var p := PassOf(db, defaultDays, logDays, now);
            match PruneRow(was, p)
            case None => PastRecord(was, p)
            case Some(row) =>
              MayReadPayload(db, principal, row, strict, defaultDays, now).Allowed? <==>
              MayReadPayload(db, principal, was, strict, defaultDays, now).Allowed? && !PastCutoff(was, p)
  {
  }

  /** No row of a pruned log that is past its clock can be read, by anybody. */
  lemma NothingReadPastItsClock(db: ReadModel, principal: Principal, log: seq<Row>, row: Row,
                                strict: bool, defaultDays: int, logDays: int, now: int)
    requires row in Pruned(log, PassOf(db, defaultDays, logDays, now))
    requires MayReadPayload(db, principal, row, strict, defaultDays, now).Allowed?
    ensures !PastCutoff(row, PassOf(db, defaultDays, logDays, now))
    ensures !IsPastRetention(row, UseCaseOf(db, row), defaultDays, now)
    ensures row in log
  {
    var p := PassOf(db, defaultDays, logDays, now);
    MetadataSurvives(log, p);
    var was :| was in log && row.Cleared() == was.Cleared() && !PastRecord(was, p)
               && row == if PastCutoff(was, p) then was.Cleared() else was;
    OneClock(db, row, defaultDays, logDays, now);
  }

  /** The reader answers that a row never had a payload. */
  predicate Misreported(db: ReadModel, principal: Principal, row: Row, strict: bool, defaultDays: int, now: int) {
    MayReadPayload(db, principal, row, strict, defaultDays, now) == Refused(NeverHadOne)
  }

  /** A payload that a pass removed, whatever the read-model and the default were then, is reported as
      one that never existed exactly when, by the read-model and default at the read, a caller with
      authority asks for a request that is not the gateway's own call, whose use case stores payloads
      or is unknown, that was not served, and that the reader's clock has not reached. */
  lemma RemovalMisreportedExactlyWhen(before: ReadModel, later: ReadModel, principal: Principal, was: Row,
                                      beforeDays: int, logDays: int, laterDays: int, strict: bool, at: int, now: int)
    requires was.HasPayload() && PruneRow(was, PassOf(before, beforeDays, logDays, at)) == Some(was.Cleared())
    ensures Misreported(later, principal, was.Cleared(), strict, laterDays, now) <==>
            var useCase := UseCaseOf(later, was);
            && Authority(later, principal, was, strict).Ok?
            && !IsTheGatewaysOwnCall(was)
            && (useCase.None? || useCase.value.storePayloads)
            && !(was.status.Some? && 200 <= was.status.value < 300)
            && !IsPastRetention(was, useCase, laterDays, now)
  {
  }

  /** While read-model and default stay as they were, a payload a pass removed is never reported as one
      that never existed: the reader names the storage switch, the expiry, or the retention clock. */
  lemma RemovalIsReportedAsRemoval(db: ReadModel, principal: Principal, was: Row,
                                   strict: bool, defaultDays: int, logDays: int, now: int, later: int)
    requires was.HasPayload() && PruneRow(was, PassOf(db, defaultDays, logDays, now)) == Some(was.Cleared())
    requires now <= later && !IsTheGatewaysOwnCall(was)
    ensures !Misreported(db, principal, was.Cleared(), strict, defaultDays, later)
    ensures match MayReadPayload(db, principal, was.Cleared(), strict, defaultDays, later)
            case Allowed(_) => false
            case Refused(refusal) =>
              Authority(db, principal, was, strict).Ok? ==>
                var useCase := UseCaseOf(db, was);
                refusal == if useCase.Some? && !useCase.value.storePayloads then NotStored
                           else if was.status.Some? && 200 <= was.status.value < 300 then Expired
                           else PastRetention
  {
    OneClock(db, was, defaultDays, logDays, now);
    RemovalMisreportedExactlyWhen(db, db, principal, was, defaultDays, logDays, defaultDays, strict, now, later);
  }

  /** Switching storage off and on again around a pass misreports every refused request younger than
      the restored period, and no other. */
  lemma StorageToggledMisreports(off: ReadModel, on: ReadModel, principal: Principal, was: Row, slug: string,
                                 offDays: int, logDays: int, onDays: int, strict: bool, now: int, later: int)
    requires was.useCase == Some(slug) && slug in off.useCases && slug in on.useCases
    requires !off.useCases[slug].storePayloads && on.useCases[slug].storePayloads
    requires was.HasPayload() && was.createdAt < now && !PastRecord(was, PassOf(off, offDays, logDays, now))
    ensures Misreported(on, principal, was.Cleared(), strict, onDays, later) <==>
            && Authority(on, principal, was, strict).Ok? && !IsTheGatewaysOwnCall(was)
            && !(was.status.Some? && 200 <= was.status.value < 300)
            && !IsPastRetention(was, Some(on.useCases[slug]), onDays, later)
  {
    RemovalMisreportedExactlyWhen(off, on, principal, was, offDays, logDays, onDays, strict, now, later);
  }

  /** So does lengthening the period after a pass, with storage on throughout: the rows between the two
      cutoffs are gone and not yet past the reader's clock. */
  lemma LongerPeriodMisreports(short: ReadModel, long: ReadModel, principal: Principal, was: Row, slug: string,
                               days: int, moreDays: int, defaultDays: int, logDays: int, strict: bool, now: int)
    requires was.useCase == Some(slug) && slug in short.useCases && slug in long.useCases
    requires short.useCases[slug].storePayloads && long.useCases[slug].storePayloads
    requires short.useCases[slug].retentionDays == Some(days) && long.useCases[slug].retentionDays == Some(moreDays)
    requires 0 < days <= moreDays
    requires was.HasPayload() && !PastRecord(was, PassOf(short, defaultDays, logDays, now))
    requires Authority(long, principal, was, strict).Ok? && !IsTheGatewaysOwnCall(was)
    requires !(was.status.Some? && 200 <= was.status.value < 300)
    ensures PruneRow(was, PassOf(short, defaultDays, logDays, now)) == Some(was.Cleared())
            && Misreported(long, principal, was.Cleared(), strict, defaultDays, now)
            <==> now - moreDays * DAY <= was.createdAt < now - days * DAY
  {
    if PruneRow(was, PassOf(short, defaultDays, logDays, now)) == Some(was.Cleared()) {
      RemovalMisreportedExactlyWhen(short, long, principal, was, defaultDays, logDays, defaultDays, strict, now, now);
    }
  }
}
