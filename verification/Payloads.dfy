/** The reader: who may see a stored payload, why one is missing, and which use cases are narrowed. */
module Payloads {
  import opened RequestLog
  import Sql
  import opened Wrappers

  const OWN_REQUESTS_ONLY := "own"
  const OVERSIGHT_ONLY := "oversight"

  const ADMIN := "admin"
  const USER := "user"

  const PIPELINE_OPERATION_PREFIX := "pipeline:"
  const DIAGNOSTIC := "diagnostic"

  /** The caller, with the three installation-wide permissions the reader asks about. */
  datatype Principal = Principal(
    subject: string,
    username: Option<string>,
    useCases: seq<string>,
    grants: seq<(string, string)>,
    readAny: bool,
    investigate: bool,
    readAllTraces: bool)
  {
    function Person(): string {
      if username.Some? && username.value != "" then username.value else subject
    }
  }

  datatype Refusal =
    | OutOfScope | NotAContentRole | OthersRequest | Oversight
    | NotStored | Expired | PastRetention | NeverHadOne | NeverKept

  datatype Ground = Incident | UseCaseAdmin | UseCaseMember

  datatype Verdict = Allowed(ground: Ground) | Refused(refusal: Refusal)

  // ---- whose request a row is -----------------------------------------------------------

  function RowPerson(row: Row): Option<string> {
    if row.username.Some? && row.username.value != "" then row.username else row.subject
  }

  predicate IsOwnRequest(principal: Principal, row: Row) {
    || row.subject == Some(principal.subject)
    || (principal.Person() != "" && RowPerson(row) == Some(principal.Person()))
  }

  /** The same question as a filter over the columns. */
  function OwnRequests(principal: Principal, row: Row): Sql.Truth {
    var person := principal.Person();
    var bySubject := Sql.Equals(row.subject, principal.subject);
    var byName := if person != "" then Sql.Equals(row.username, person) else Sql.False;
    var nameless :=
      if person != "" && person != principal.subject
      then Sql.And(Sql.Or(Sql.Of(row.username.None?), Sql.Equals(row.username, "")), Sql.Equals(row.subject, person))
      else Sql.False;
    Sql.Or(Sql.Or(bySubject, byName), nameless)
  }

  /** The filter selects exactly the rows the predicate accepts. */
  lemma OwnRequestsAgree(principal: Principal, row: Row)
    ensures OwnRequests(principal, row) == Sql.True <==> IsOwnRequest(principal, row)
  {
  }

  // ---- the caller's role inside a use case ----------------------------------------------

  /** `dict(grants).get(slug)`: the last grant for a slug counts. */
  function GrantFor(grants: seq<(string, string)>, slug: string): Option<string> {
    if |grants| == 0 then None
    else
      var last := grants[|grants| - 1];
      if last.0 == slug then Some(last.1) else GrantFor(grants[..|grants| - 1], slug)
  }

  /** The strongest recognised role, `user` when there is none. */
  function Strongest(roles: seq<string>): string {
    if ADMIN in roles then ADMIN else USER
  }

  function Listed(role: Option<string>): seq<string> {
    if role.Some? && role.value != "" then [role.value] else []
  }

  function MemberRole(db: ReadModel, principal: Principal, slug: string): Option<string> {
    if (slug, principal.Person()) in db.members then Some(db.members[(slug, principal.Person())]) else None
  }

  function GrantRoleIn(db: ReadModel, principal: Principal, slug: string): Option<string> {
    if slug !in principal.useCases then None
    else Some(Strongest(Listed(GrantFor(principal.grants, slug)) + Listed(MemberRole(db, principal, slug))))
  }

  // ---- authority ------------------------------------------------------------------------

  function EffectiveVisibility(stored: Option<string>, strict: bool): Option<string> {
    if strict then Some(OVERSIGHT_ONLY) else stored
  }

  function StoredVisibility(db: ReadModel, slug: string): Option<string> {
    if slug in db.useCases then Some(db.useCases[slug].visibility) else None
  }

  function Authority(db: ReadModel, principal: Principal, row: Row, strict: bool): Result<Ground, Refusal> {
    if principal.readAny then Ok(Incident)
    else if row.useCase.None? || row.useCase.value == "" || row.useCase.value !in principal.useCases then
      Err(if principal.readAllTraces then NotAContentRole else OutOfScope)
    else
      var slug := row.useCase.value;
      var visibility := EffectiveVisibility(StoredVisibility(db, slug), strict);
      if visibility == Some(OVERSIGHT_ONLY) then Err(Oversight)
      else if GrantRoleIn(db, principal, slug) == Some(ADMIN) then Ok(UseCaseAdmin)
      else if visibility == Some(OWN_REQUESTS_ONLY) && !IsOwnRequest(principal, row) then Err(OthersRequest)
      else Ok(UseCaseMember)
  }

  // ---- the verdict ----------------------------------------------------------------------

  predicate IsTheGatewaysOwnCall(row: Row) {
    || (|PIPELINE_OPERATION_PREFIX| <= |row.operation| &&
        row.operation[..|PIPELINE_OPERATION_PREFIX|] == PIPELINE_OPERATION_PREFIX)
    || row.outcome == Some(DIAGNOSTIC)
  }

  predicate IsPastRetention(row: Row, useCase: Option<UseCase>, defaultDays: int, now: int) {
    var days := Max(1, OrDefault(if useCase.Some? then useCase.value.retentionDays else None, defaultDays));
    row.createdAt < now - days * DAY
  }

  function UseCaseOf(db: ReadModel, row: Row): Option<UseCase> {
    if row.useCase.Some? && row.useCase.value in db.useCases then Some(db.useCases[row.useCase.value]) else None
  }

  /** Why a row without a payload has none. */
  function Absence(db: ReadModel, row: Row, defaultDays: int, now: int): Refusal {
    var useCase := UseCaseOf(db, row);
    if IsTheGatewaysOwnCall(row) then NeverKept
    else if useCase.Some? && !useCase.value.storePayloads then NotStored
    else if row.status.Some? && 200 <= row.status.value < 300 then Expired
    else if IsPastRetention(row, useCase, defaultDays, now) then PastRetention
    else NeverHadOne
  }

  function MayReadPayload(db: ReadModel, principal: Principal, row: Row,
                          strict: bool, defaultDays: int, now: int): Verdict {
    match Authority(db, principal, row, strict)
    case Err(refusal) => Refused(refusal)
    case Ok(ground) =>
      if !row.HasPayload() then Refused(Absence(db, row, defaultDays, now)) else Allowed(ground)
  }

  // ---- what the verdict is --------------------------------------------------------------

  /** A name is the username, or the subject where there is no username or an empty one. */
  ghost predicate KnownAs(subject: string, username: Option<string>, name: string) {
    (username == Some(name) && name != "") || (name == subject && (username.None? || username == Some("")))
  }

  /** The row carries the caller's subject, or the name the caller is known by. */
  ghost predicate Made(principal: Principal, row: Row) {
    || row.subject == Some(principal.subject)
    || exists name :: name != "" && KnownAs(principal.subject, principal.username, name) &&
         (row.username == Some(name) || (row.subject == Some(name) && (row.username.None? || row.username == Some(""))))
  }

  /** The row belongs to a use case of the caller's. */
  ghost predicate Inside(principal: Principal, row: Row) {
    row.useCase.Some? && row.useCase.value != "" && row.useCase.value in principal.useCases
  }

  ghost predicate Stores(db: ReadModel, slug: string, visibility: string) {
    slug in db.useCases && db.useCases[slug].visibility == visibility
  }

  /** The last grant for the slug says administrator, or a member row of the caller's name does. */
  ghost predicate Administers(db: ReadModel, principal: Principal, slug: string) {
    || (exists i :: LastGrantAt(principal.grants, slug, i) && principal.grants[i].1 == "admin")
    || (exists name :: KnownAs(principal.subject, principal.username, name) &&
          (slug, name) in db.members && db.members[(slug, name)] == "admin")
  }

  ghost predicate LastGrantAt(grants: seq<(string, string)>, slug: string, i: int) {
    0 <= i < |grants| && grants[i].0 == slug && forall j :: i < j < |grants| ==> grants[j].0 != slug
  }

  lemma KnownByPerson(principal: Principal, name: string)
    ensures KnownAs(principal.subject, principal.username, name) <==> name == principal.Person()
  {
  }

  lemma OwnIsMade(principal: Principal, row: Row)
    ensures IsOwnRequest(principal, row) <==> Made(principal, row)
  {
    KnownByPerson(principal, principal.Person());
    forall name ensures KnownAs(principal.subject, principal.username, name) <==> name == principal.Person() {
      KnownByPerson(principal, name);
    }
    hide KnownAs;
  }

  lemma {:induction false} LastGrantCounts(grants: seq<(string, string)>, slug: string)
    ensures GrantFor(grants, slug).None? ==> forall i :: !LastGrantAt(grants, slug, i)
    ensures forall i :: LastGrantAt(grants, slug, i) ==> GrantFor(grants, slug) == Some(grants[i].1)
    ensures GrantFor(grants, slug).Some? ==> exists i :: LastGrantAt(grants, slug, i)
  {
    if grants != [] {
      var before, last := grants[..|grants| - 1], |grants| - 1;
      LastGrantCounts(before, slug);
      if grants[last].0 == slug {
        assert LastGrantAt(grants, slug, last);
      } else {
        forall i ensures LastGrantAt(grants, slug, i) <==> LastGrantAt(before, slug, i) {
        }
      }
    }
  }

  lemma AdminAdministers(db: ReadModel, principal: Principal, slug: string)
    requires slug in principal.useCases
    ensures GrantRoleIn(db, principal, slug) == Some("admin") <==> Administers(db, principal, slug)
  {
    LastGrantCounts(principal.grants, slug);
    forall name ensures KnownAs(principal.subject, principal.username, name) <==> name == principal.Person() {
      KnownByPerson(principal, name);
    }
    RoleIsAdmin(db, principal, slug);
    hide KnownAs, GrantFor, LastGrantAt, GrantRoleIn;
  }

  /** The caller has a ground to read the row's content on: one of three. */
  ghost predicate HasGround(db: ReadModel, principal: Principal, row: Row, strict: bool, ground: Ground) {
    match ground
    case Incident => principal.readAny
    case UseCaseAdmin =>
      && !principal.readAny && Inside(principal, row) && !strict && !Stores(db, row.useCase.value, "oversight")
      && Administers(db, principal, row.useCase.value)
    case UseCaseMember =>
      && !principal.readAny && Inside(principal, row) && !strict && !Stores(db, row.useCase.value, "oversight")
      && !Administers(db, principal, row.useCase.value)
      && (Stores(db, row.useCase.value, "own") ==> Made(principal, row))
  }

  /** Nothing but these grounds gives authority, and what is refused otherwise: to a caller inside a use
      case of `oversight`, or of any under strict mode, its content, whatever their role; to one who only
      sees their own, another's; to one outside, the scope. */
  lemma AuthorityExactlyWhen(db: ReadModel, principal: Principal, row: Row, strict: bool)
    ensures forall ground :: Authority(db, principal, row, strict) == Ok(ground) <==>
                             HasGround(db, principal, row, strict, ground)
    ensures Authority(db, principal, row, strict) == Err(Oversight) <==>
            !principal.readAny && Inside(principal, row) && (strict || Stores(db, row.useCase.value, "oversight"))
    ensures Authority(db, principal, row, strict) == Err(OthersRequest) <==>
            && !principal.readAny && Inside(principal, row) && !strict && Stores(db, row.useCase.value, "own")
            && !Administers(db, principal, row.useCase.value) && !Made(principal, row)
    ensures Authority(db, principal, row, strict) == Err(OutOfScope) <==>
            !principal.readAny && !Inside(principal, row) && !principal.readAllTraces
    ensures Authority(db, principal, row, strict) == Err(NotAContentRole) <==>
            !principal.readAny && !Inside(principal, row) && principal.readAllTraces
  {
    OwnIsMade(principal, row);
    if Inside(principal, row) {
      AdminAdministers(db, principal, row.useCase.value);
    }
    hide Made, IsOwnRequest, Administers, GrantRoleIn;
  }

  /** The days a payload is kept: the use case's own period, the default for none or zero, and one at least. */
  ghost predicate KeptFor(own: Option<int>, defaultDays: int, days: int) {
    && days >= 1
    && (own.Some? && own.value >= 1 ==> days == own.value)
    && (own.Some? && own.value < 0 ==> days == 1)
    && (own.None? || own.value == 0 ==> days == defaultDays || (defaultDays < 1 && days == 1))
  }

  /** A day is 86,400 seconds of a million microseconds. */
  ghost predicate ClockReached(row: Row, own: Option<int>, defaultDays: int, now: int) {
    exists days :: KeptFor(own, defaultDays, days) && row.createdAt + days * 86_400 * 1_000_000 < now
  }

  lemma RetentionReached(row: Row, useCase: Option<UseCase>, defaultDays: int, now: int)
    ensures IsPastRetention(row, useCase, defaultDays, now) <==>
            ClockReached(row, if useCase.Some? then useCase.value.retentionDays else None, defaultDays, now)
  {
    var own := if useCase.Some? then useCase.value.retentionDays else None;
    var days := Max(1, OrDefault(own, defaultDays));
    assert KeptFor(own, defaultDays, days);
    assert days * 86_400 * 1_000_000 == days * DAY;
  }

  /** A row the gateway wrote for a call of its own. */
  ghost predicate GatewaysOwn(row: Row) {
    (exists rest :: row.operation == "pipeline:" + rest) || row.outcome == Some("diagnostic")
  }

  lemma OwnCallExactlyWhen(row: Row)
    ensures IsTheGatewaysOwnCall(row) <==> GatewaysOwn(row)
  {
    if IsTheGatewaysOwnCall(row) && row.outcome != Some("diagnostic") {
      assert row.operation == "pipeline:" + row.operation[|"pipeline:"|..];
    }
  }

  /** The whole verdict: allowed on a ground with a payload, refused for want of a ground as above, and
      without a payload told in this order: it was the gateway's own call, its use case stores none, it was
      served, its clock has been reached, or it never had one. */
  lemma VerdictExactlyWhen(db: ReadModel, principal: Principal, row: Row, strict: bool, defaultDays: int, now: int)
    ensures var verdict := MayReadPayload(db, principal, row, strict, defaultDays, now);
            var grounded := exists ground :: HasGround(db, principal, row, strict, ground);
            var lacks := grounded && row.requestPayload.None? && row.responsePayload.None?;
            var unstored := row.useCase.Some? && row.useCase.value in db.useCases &&
                            !db.useCases[row.useCase.value].storePayloads;
            var served := row.status.Some? && 200 <= row.status.value <= 299;
            var days := if row.useCase.Some? && row.useCase.value in db.useCases
                        then db.useCases[row.useCase.value].retentionDays else None;
            var reached := ClockReached(row, days, defaultDays, now);
            && (forall ground :: verdict == Allowed(ground) <==>
                                 HasGround(db, principal, row, strict, ground) && row.HasPayload())
            && (!grounded ==> Authority(db, principal, row, strict).Err? &&
                              verdict == Refused(Authority(db, principal, row, strict).error))
            && (verdict == Refused(NeverKept) <==> lacks && GatewaysOwn(row))
            && (verdict == Refused(NotStored) <==> lacks && !GatewaysOwn(row) && unstored)
            && (verdict == Refused(Expired) <==> lacks && !GatewaysOwn(row) && !unstored && served)
            && (verdict == Refused(PastRetention) <==> lacks && !GatewaysOwn(row) && !unstored && !served && reached)
            && (verdict == Refused(NeverHadOne) <==> lacks && !GatewaysOwn(row) && !unstored && !served && !reached)
  {
    AuthorityExactlyWhen(db, principal, row, strict);
    OwnCallExactlyWhen(row);
    RetentionReached(row, UseCaseOf(db, row), defaultDays, now);
    if Authority(db, principal, row, strict).Err? {
      assert Authority(db, principal, row, strict).error in {OutOfScope, NotAContentRole, OthersRequest, Oversight};
    }
    hide Authority, HasGround, GatewaysOwn, IsTheGatewaysOwnCall, IsPastRetention, ClockReached;
  }

  // ---- narrowed use cases ---------------------------------------------------------------

  function Narrowed(db: ReadModel, principal: Principal, visibility: string, administratorsExempt: bool): set<string> {
    if principal.investigate || principal.useCases == [] then {}
    else
      var narrowed := set slug | slug in principal.useCases && StoredVisibility(db, slug) == Some(visibility);
      if narrowed == {} || !administratorsExempt then narrowed
      else
        var byRow := set slug | slug in narrowed && MemberRole(db, principal, slug) == Some(ADMIN);
        var byGroup := set g | g in principal.grants && g.1 == ADMIN :: g.0;
        narrowed - (byRow + byGroup)
  }

  function RestrictedUseCases(db: ReadModel, principal: Principal, strict: bool): set<string> {
    if strict then {} else Narrowed(db, principal, OWN_REQUESTS_ONLY, true)
  }

  /** A sorted list, told by how often it holds each slug. */
  function PeopleRestrictedUseCases(db: ReadModel, principal: Principal, strict: bool): multiset<string> {
    if strict then if principal.investigate then multiset{} else multiset(principal.useCases)
    else multiset(Narrowed(db, principal, OWN_REQUESTS_ONLY, true) + Narrowed(db, principal, OVERSIGHT_ONLY, false))
  }

  // ---- the list and the reader agree ----------------------------------------------------

  /** The caller administers the use case by a member row. */
  predicate AdminByRow(db: ReadModel, principal: Principal, slug: string) {
    MemberRole(db, principal, slug) == Some(ADMIN)
  }

  /** Some grant says administrator, and the one that counts says the same. */
  predicate GrantsAgree(principal: Principal, slug: string) {
    (slug, ADMIN) in principal.grants <==> GrantFor(principal.grants, slug) == Some(ADMIN)
  }

  lemma {:induction false} GrantForIsAGrant(grants: seq<(string, string)>, slug: string)
    ensures GrantFor(grants, slug).Some? ==> (slug, GrantFor(grants, slug).value) in grants
    ensures GrantFor(grants, slug).None? ==> forall role :: (slug, role) !in grants
  {
    if grants != [] {
      var last := grants[|grants| - 1];
      GrantForIsAGrant(grants[..|grants| - 1], slug);
      assert grants == grants[..|grants| - 1] + [last];
    }
  }

  /** With one grant for each slug, as the resolver hands them over, the grants agree. */
  lemma OneGrantPerSlugAgrees(principal: Principal, slug: string)
    requires forall i, j :: 0 <= i < j < |principal.grants| ==> principal.grants[i].0 != principal.grants[j].0
    ensures GrantsAgree(principal, slug)
  {
    GrantForIsAGrant(principal.grants, slug);
    if (slug, ADMIN) in principal.grants {
      var i :| 0 <= i < |principal.grants| && principal.grants[i] == (slug, ADMIN);
      var role := GrantFor(principal.grants, slug).value;
      var j :| 0 <= j < |principal.grants| && principal.grants[j] == (slug, role);
    }
  }

  lemma RoleIsAdmin(db: ReadModel, principal: Principal, slug: string)
    requires slug in principal.useCases
    ensures GrantRoleIn(db, principal, slug) == Some(ADMIN)
            <==> AdminByRow(db, principal, slug) || GrantFor(principal.grants, slug) == Some(ADMIN)
  {
    var granted, row := GrantFor(principal.grants, slug), MemberRole(db, principal, slug);
    assert ADMIN in Listed(granted) + Listed(row) <==> granted == Some(ADMIN) || row == Some(ADMIN);
  }

  // ---- the list's filter and the single row's check --------------------------------------

  /** The restriction the trace list adds to its query. */
  function ListFilter(principal: Principal, restricted: set<string>, row: Row): Sql.Truth {
    if restricted == {} then Sql.True
    else Sql.Or(Sql.Or(Sql.Of(row.useCase.None?), Sql.NotIn(row.useCase, restricted)), OwnRequests(principal, row))
  }

  /** What hides one opened request. */
  predicate HiddenByRestriction(principal: Principal, restricted: set<string>, row: Row) {
    row.useCase.Some? && row.useCase.value in restricted && !IsOwnRequest(principal, row)
  }

  /** The list drops exactly the rows the opened request hides. */
  lemma ListDropsTheHidden(principal: Principal, restricted: set<string>, row: Row)
    ensures ListFilter(principal, restricted, row) == Sql.True <==> !HiddenByRestriction(principal, restricted, row)
  {
    OwnRequestsAgree(principal, row);
  }

  /** Somebody else's row in a use case of the caller's own that shows each member their own requests:
      the only rows on which list and reader could part. */
  predicate InQuestion(db: ReadModel, principal: Principal, row: Row) {
    && row.useCase.Some? && row.useCase.value in principal.useCases && !IsOwnRequest(principal, row)
    && StoredVisibility(db, row.useCase.value) == Some(OWN_REQUESTS_ONLY)
  }

  /** Nothing narrows the use case for this caller. */
  predicate Unrestricted(db: ReadModel, principal: Principal, slug: string) {
    principal.investigate || AdminByRow(db, principal, slug) || (slug, ADMIN) in principal.grants
  }

  lemma RestrictedExactlyWhen(db: ReadModel, principal: Principal, row: Row)
    ensures HiddenByRestriction(principal, RestrictedUseCases(db, principal, false), row) <==>
            InQuestion(db, principal, row) && !Unrestricted(db, principal, row.useCase.value)
  {
    if row.useCase.Some? {
      var slug := row.useCase.value;
      var narrowed := set s | s in principal.useCases && StoredVisibility(db, s) == Some(OWN_REQUESTS_ONLY);
      assert slug in narrowed <==> slug in principal.useCases && StoredVisibility(db, slug) == Some(OWN_REQUESTS_ONLY);
    }
  }

  lemma RefusedExactlyWhen(db: ReadModel, principal: Principal, row: Row)
    ensures Authority(db, principal, row, false) == Err(OthersRequest) <==>
            && InQuestion(db, principal, row) && row.useCase.value != "" && !principal.readAny
            && !AdminByRow(db, principal, row.useCase.value)
            && GrantFor(principal.grants, row.useCase.value) != Some(ADMIN)
  {
    if row.useCase.Some? && row.useCase.value in principal.useCases {
      RoleIsAdmin(db, principal, row.useCase.value);
    }
  }

  /** Outside strict mode, for every caller and row, the list drops a row exactly when the reader refuses
      its payload as another person's, if and only if: the row is not in question; or the reader does
      not ask whose it is, the caller reading every payload or the slug being empty, and nothing narrows
      the list; or the caller investigates and administers the use case by row or by the grant that
      counts; or the caller does not investigate, and administers it by row or all their grants for it
      agree. */
  lemma ListAndReaderAgree(db: ReadModel, principal: Principal, row: Row)
    ensures (ListFilter(principal, RestrictedUseCases(db, principal, false), row) != Sql.True
             <==> Authority(db, principal, row, false) == Err(OthersRequest))
            <==> (InQuestion(db, principal, row) ==>
                    var slug := row.useCase.value;
                    if principal.readAny || slug == "" then Unrestricted(db, principal, slug)
                    else if principal.investigate then GrantRoleIn(db, principal, slug) == Some(ADMIN)
                    else AdminByRow(db, principal, slug) || GrantsAgree(principal, slug))
  {
    var restricted := RestrictedUseCases(db, principal, false);
    ListDropsTheHidden(principal, restricted, row);
    RestrictedExactlyWhen(db, principal, row);
    RefusedExactlyWhen(db, principal, row);
    if InQuestion(db, principal, row) {
      RoleIsAdmin(db, principal, row.useCase.value);
      GrantForIsAGrant(principal.grants, row.useCase.value);
    }
    hide ListFilter, RestrictedUseCases, Authority, InQuestion, HiddenByRestriction, AdminByRow, GrantRoleIn, GrantFor;
  }

  /** For the callers the list is written for, a use case narrows the list exactly when the reader
      refuses other people's requests there, whichever way administration comes. */
  lemma OthersRequestIffRestricted(db: ReadModel, principal: Principal, row: Row)
    requires !principal.readAny && !principal.investigate
    requires forall i, j :: 0 <= i < j < |principal.grants| ==> principal.grants[i].0 != principal.grants[j].0
    ensures Authority(db, principal, row, false) == Err(OthersRequest) <==>
            && row.useCase.Some? && row.useCase.value != ""
            && row.useCase.value in RestrictedUseCases(db, principal, false)
            && !IsOwnRequest(principal, row)
  {
    if row.useCase.Some? {
      OneGrantPerSlugAgrees(principal, row.useCase.value);
      RestrictedExactlyWhen(db, principal, row);
      RefusedExactlyWhen(db, principal, row);
      hide RestrictedUseCases, Authority, GrantFor;
    }
  }

  /** A caller who reads every payload without investigating incidents or administering the use case: the
      list drops a row whose payload the reader hands out. */
  lemma ReadablePayloadDropped(db: ReadModel, principal: Principal, row: Row, defaultDays: int, now: int)
    requires principal.readAny && InQuestion(db, principal, row) && row.HasPayload()
    requires !Unrestricted(db, principal, row.useCase.value)
    ensures ListFilter(principal, RestrictedUseCases(db, principal, false), row) != Sql.True
    ensures MayReadPayload(db, principal, row, false, defaultDays, now) == Allowed(Incident)
  {
    ListDropsTheHidden(principal, RestrictedUseCases(db, principal, false), row);
    RestrictedExactlyWhen(db, principal, row);
  }

  /** A slug nobody may register shows why the empty one is set apart: the list is narrowed, and the
      reader answers that the row is out of scope. */
  lemma EmptySlugPartsThem(db: ReadModel, principal: Principal, row: Row)
    requires !principal.readAny && row.useCase == Some("") && "" in RestrictedUseCases(db, principal, false)
    ensures Authority(db, principal, row, false) == Err(if principal.readAllTraces then NotAContentRole else OutOfScope)
    ensures ListFilter(principal, RestrictedUseCases(db, principal, false), row) == Sql.True
            <==> IsOwnRequest(principal, row)
  {
    OwnRequestsAgree(principal, row);
  }

  // ---- strict data mode -----------------------------------------------------------------

  /** The read-model in which every use case stores `visibility`. */
  function Storing(db: ReadModel, visibility: string): ReadModel {
    db.(useCases := map slug | slug in db.useCases :: db.useCases[slug].(visibility := visibility))
  }

  /** Strict mode answers as a read-model storing `oversight` everywhere would, except to a caller
      without `payload.read_any` about a use case of theirs the read-model does not hold. */
  lemma StrictIsOversightEverywhere(db: ReadModel, principal: Principal, row: Row, defaultDays: int, now: int)
    ensures MayReadPayload(db, principal, row, true, defaultDays, now)
            == MayReadPayload(Storing(db, OVERSIGHT_ONLY), principal, row, false, defaultDays, now)
            <==> principal.readAny || row.useCase.None? || row.useCase.value == ""
                 || row.useCase.value !in principal.useCases || row.useCase.value in db.useCases
  {
  }

  lemma StrictRestrictsAsOversight(db: ReadModel, principal: Principal)
    ensures RestrictedUseCases(db, principal, true)
            == RestrictedUseCases(Storing(db, OVERSIGHT_ONLY), principal, false)
  {
    assert (set slug | slug in principal.useCases
                       && StoredVisibility(Storing(db, OVERSIGHT_ONLY), slug) == Some(OWN_REQUESTS_ONLY)) == {};
  }

  ghost predicate Distinct(s: seq<string>) {
    forall i, j :: 0 <= i < j < |s| ==> s[i] != s[j]
  }

  /** The split by person is withheld alike, unless a use case of the caller's is missing from the
      read-model or listed twice. */
  lemma StrictWithholdsPeopleAsOversight(db: ReadModel, principal: Principal)
    ensures PeopleRestrictedUseCases(db, principal, true)
            == PeopleRestrictedUseCases(Storing(db, OVERSIGHT_ONLY), principal, false)
            <==> principal.investigate ||
                 (Distinct(principal.useCases) && forall slug :: slug in principal.useCases ==> slug in db.useCases)
  {
    var stored := Storing(db, OVERSIGHT_ONLY);
    if !principal.investigate {
      var own := Narrowed(stored, principal, OWN_REQUESTS_ONLY, true);
      assert (set slug | slug in principal.useCases && StoredVisibility(stored, slug) == Some(OWN_REQUESTS_ONLY)) == {};
      assert own == {};
      var oversight := Narrowed(stored, principal, OVERSIGHT_ONLY, false);
      assert oversight == set slug | slug in principal.useCases && slug in db.useCases;
      assert own + oversight == oversight;
      SeqAsSet(principal.useCases, oversight);
    }
  }

  /** A list and a set hold the same slugs as often exactly when the list repeats none and has the
      set's elements. */
  lemma SeqAsSet(s: seq<string>, t: set<string>)
    ensures multiset(s) == multiset(t) <==> Distinct(s) && forall x :: x in s <==> x in t
  {
    CountsOf(s);
    if multiset(s) == multiset(t) {
      forall x ensures x in s <==> x in t {
        assert multiset(s)[x] == multiset(t)[x];
      }
      forall x ensures multiset(s)[x] <= 1 {
        assert multiset(t)[x] <= 1;
      }
    }
    if Distinct(s) && forall x :: x in s <==> x in t {
      forall x ensures multiset(s)[x] == multiset(t)[x] {
      }
    }
  }

  lemma {:induction false} CountsOf(s: seq<string>)
    ensures Distinct(s) <==> forall x :: multiset(s)[x] <= 1
    ensures forall x :: x in s <==> multiset(s)[x] > 0
  {
    if s != [] {
      var rest, last := s[..|s| - 1], s[|s| - 1];
      CountsOf(rest);
      assert s == rest + [last];
      assert multiset(s) == multiset(rest) + multiset{last};
      if forall x :: multiset(s)[x] <= 1 {
        forall x ensures multiset(rest)[x] <= 1 {
          assert multiset(s)[x] <= 1;
        }
        assert multiset(s)[last] <= 1;
      }
      if Distinct(s) {
        forall x ensures multiset(s)[x] <= 1 {
          assert last !in rest;
        }
      }
    }
  }

  /** Whose split by person is withheld from a caller: outside strict mode, in a use case of theirs, where
      it stores `oversight`, and where it stores `own` unless they administer it by row or by any grant. */
  lemma PeopleRestrictedExactlyWhen(db: ReadModel, principal: Principal, slug: string)
    ensures PeopleRestrictedUseCases(db, principal, false)[slug] ==
            if !principal.investigate && slug in principal.useCases &&
               (Stores(db, slug, "oversight") ||
                (Stores(db, slug, "own") && !AdminByRow(db, principal, slug) && (slug, "admin") !in principal.grants))
            then 1 else 0
  {
    if !principal.investigate && principal.useCases != [] {
      NarrowedExactlyWhen(db, principal, "own", true, slug);
      NarrowedExactlyWhen(db, principal, "oversight", false, slug);
    }
    hide Narrowed, AdminByRow;
  }

  lemma NarrowedExactlyWhen(db: ReadModel, principal: Principal, visibility: string, exempt: bool, slug: string)
    requires !principal.investigate
    ensures slug in Narrowed(db, principal, visibility, exempt) <==>
            && slug in principal.useCases && Stores(db, slug, visibility)
            && !(exempt && (AdminByRow(db, principal, slug) || (slug, "admin") in principal.grants))
  {
    var all := set s | s in principal.useCases && StoredVisibility(db, s) == Some(visibility);
    assert slug in all <==> slug in principal.useCases && Stores(db, slug, visibility);
  }

  // ---- the ladder -----------------------------------------------------------------------

  /** How far a visibility opens a use case to its own; an unknown value reads as `members`. */
  function Rung(visibility: string): nat {
    if visibility == OVERSIGHT_ONLY then 0 else if visibility == OWN_REQUESTS_ONLY then 1 else 2
  }

  /** Opening a use case further never takes a payload away from anybody. */
  lemma ReadabilityGrows(db: ReadModel, principal: Principal, row: Row, slug: string, lower: string, higher: string,
                         strict: bool, defaultDays: int, now: int)
    requires slug in db.useCases && Rung(lower) <= Rung(higher)
    ensures var low := db.(useCases := db.useCases[slug := db.useCases[slug].(visibility := lower)]);
            var high := db.(useCases := db.useCases[slug := db.useCases[slug].(visibility := higher)]);
            MayReadPayload(low, principal, row, strict, defaultDays, now).Allowed? ==>
            MayReadPayload(high, principal, row, strict, defaultDays, now).Allowed?
  {
  }
}
