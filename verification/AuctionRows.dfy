/** Auction lots: what one transaction does to one row. */
module AuctionRows {
  import opened Wrappers

  // ---------- Rows ----------

  datatype LotState = Upcoming | Live | Aftersale | Closed | Withdrawn | UnknownState
  datatype MatchStatus = Pending | Review | Matched | Ignored

  /** Source facts by schema key; a key may be known to have no value. */
  type Facts = map<string, Option<string>>

  /** What the fingerprint hashes. The hash is taken to be injective, so the text stands for it. */
  datatype Fingerprint = Fingerprint(nameKey: string, volume: Option<int>, facts: Option<Facts>)

  datatype Lot = Lot(
    site: nat,
    name: string,
    url: string,
    volume: Option<int>,
    facts: Option<Facts>,
    fingerprint: Fingerprint,
    bottleId: Option<nat>,
    status: MatchStatus,
    checkId: Option<nat>,
    referenceId: Option<nat>,
    matchedById: Option<nat>,
    matchedAt: Option<int>,
    availableSince: Option<int>,
    state: LotState,
    endsAt: Option<int>,
    detailsRequestedAt: Option<int>,
    detailsCheckedAt: Option<int>,
    lastCheckedAt: int
  )

  datatype Decision = NoMatch | MatchBottle(bottleId: nat) | CreateBottle
  datatype CheckOutput = IgnoredOutput | Classified(decision: Decision)

  datatype CheckKey = CheckKey(lotId: nat, fingerprint: Fingerprint)

  /** A saved Bottle check. `readable` means a supported version whose input and output parse;
      `exactReference` is the reference name of an exact candidate, when the target is one. */
  datatype Check = Check(
    auctionLot: bool,
    sourceId: nat,
    key: Option<CheckKey>,
    readable: bool,
    inputId: nat,
    inputName: string,
    output: CheckOutput,
    exact: bool,
    exactReference: Option<string>
  )

  /** Code outside the model: how names are normalised, the facts a parse fills in, which sites have lot
      pages to read, what contradicts a Bottle, and whether a decision is safe to automate. */
  datatype Rules = Rules(
    normalize: string -> string,
    defaultFacts: Facts,
    readsDetails: nat -> bool,
    conflicts: (Option<Facts>, nat) -> bool,
    eligible: (Lot, Check) -> bool
  )

  const FRESHNESS_MS := 6 * 60 * 60_000
  const FUTURE_TOLERANCE_MS := 60_000

  // ---------- Pure rules ----------

  function IdentityFingerprint(rules: Rules, name: string, volume: Option<int>, facts: Option<Facts>): Fingerprint {
    Fingerprint(rules.normalize(name), volume, facts)
  }

  predicate IsMiniature(lot: Lot) {
    lot.volume.Some? && lot.volume.value <= 100
  }

  datatype Availability = Unavailable | NotKnown | AftersaleNow | UpcomingNow | LiveNow

  function AuctionAvailability(state: LotState, endsAt: Option<int>, lastCheckedAt: int, now: int): Availability {
    if state == Closed || state == Withdrawn then Unavailable
    else if state == UnknownState || lastCheckedAt > now || now - lastCheckedAt >= FRESHNESS_MS then NotKnown
    else if state == Aftersale then AftersaleNow
    else if endsAt.Some? && endsAt.value <= now then NotKnown
    else if state == Live then LiveNow else UpcomingNow
  }

  predicate IsLive(lot: Lot, now: int) {
    AuctionAvailability(lot.state, lot.endsAt, lot.lastCheckedAt, now) == LiveNow
  }

  /** Each availability, told apart: a listing says nothing before it was read or six hours after, and a sale that is
      over is neither live nor upcoming. */
  lemma AvailabilityExactly(state: LotState, endsAt: Option<int>, lastCheckedAt: int, now: int)
    ensures var availability := AuctionAvailability(state, endsAt, lastCheckedAt, now);
            var listed := lastCheckedAt <= now < lastCheckedAt + 6 * 3600 * 1000;
            var over := endsAt.Some? && endsAt.value <= now;
            && (availability == Unavailable <==> state == Closed || state == Withdrawn)
            && (availability == AftersaleNow <==> state == Aftersale && listed)
            && (availability == UpcomingNow <==> state == Upcoming && listed && !over)
            && (availability == LiveNow <==> state == Live && listed && !over)
  {}

  /** A lot is live while its listing says so, not past its end, for six hours from the reading on. */
  lemma LiveExactly(lot: Lot, now: int)
    ensures IsLive(lot, now) <==>
            && lot.state == Live && lot.lastCheckedAt <= now < lot.lastCheckedAt + 6 * 3600 * 1000
            && (lot.endsAt.Some? ==> now < lot.endsAt.value)
  {}

  /** A check belongs to one identity version, perhaps through an identical lot. */
  predicate IsIdentityCheck(lot: Lot, check: Check) {
    check.auctionLot && check.key == Some(CheckKey(check.sourceId, lot.fingerprint))
  }

  function ReadEvidence(rules: Rules, lot: Lot, check: Check): Option<CheckOutput> {
    if !check.readable || !IsIdentityCheck(lot, check) || check.inputId != check.sourceId
       || rules.normalize(check.inputName) != rules.normalize(lot.name)
    then None else Some(check.output)
  }

  datatype Assessment = Assessment(eligible: bool, bottleId: Option<nat>, referenceName: Option<string>)

  function AssessMatch(rules: Rules, lot: Lot, check: Check): Option<Assessment> {
    var evidence := ReadEvidence(rules, lot, check);
    if evidence.None? || evidence.value.IgnoredOutput? || evidence.value.decision.NoMatch? then None
    else if check.exact && check.exactReference.None? then None
    else
      var decision := evidence.value.decision;
      Some(Assessment(
        rules.eligible(lot, check),
        if decision.MatchBottle? then Some(decision.bottleId) else None,
        if check.exact then check.exactReference else None))
  }

  // ---------- An observation of a listing ----------

  datatype Supplied<+T> = Omitted | Given(value: T) {
    function Or(default: T): T {
      match this
      case Omitted => default
      case Given(v) => v
    }
  }

  datatype Observation = Observation(
    name: string,
    url: string,
    volume: Supplied<Option<int>>,
    facts: Supplied<Option<Facts>>,
    state: LotState,
    endsAt: Supplied<Option<int>>,
    auctionEndsAt: Option<int>,
    observedAt: int
  )

  predicate Timely(observedAt: int, now: int) {
    observedAt <= now + FUTURE_TOLERANCE_MS
  }

  /** The row after an observation. Older observations change nothing; an omitted fact survives only under
      the same title; a new identity forgets everything the old one led to. */
  function ObservedLot(rules: Rules, site: nat, existing: Option<Lot>, o: Observation, now: int): Lot {
    if existing.None? then
      var facts, volume := o.facts.Or(None), o.volume.Or(None);
      Lot(site, o.name, o.url, volume, facts, IdentityFingerprint(rules, o.name, volume, facts),
          None, Pending, None, None, None, None, None,
          o.state, o.endsAt.Or(o.auctionEndsAt), None, None, o.observedAt)
    else
      var lot := existing.value;
      if o.observedAt <= lot.lastCheckedAt then lot
      else
        var sameTitle := lot.name == o.name;
        var volume := o.volume.Or(if sameTitle then lot.volume else None);
        var facts := o.facts.Or(if sameTitle then lot.facts else None);
        var fingerprint := IdentityFingerprint(rules, o.name, volume, facts);
        var changed := fingerprint != lot.fingerprint;
        var moved := changed || lot.url != o.url;
        var listed := lot.(
          name := o.name, url := o.url, volume := volume, facts := facts, fingerprint := fingerprint,
          state := o.state,
          endsAt := o.endsAt.Or(if lot.endsAt.Some? then lot.endsAt else o.auctionEndsAt),
          lastCheckedAt := o.observedAt,
          detailsRequestedAt := if moved then None else lot.detailsRequestedAt,
          detailsCheckedAt := if moved then None else lot.detailsCheckedAt);
        if changed then
          listed.(bottleId := None, status := Pending, checkId := None, referenceId := None,
                  matchedById := None, matchedAt := None, availableSince := None)
        else if lot.bottleId.Some? && lot.availableSince.None? && IsLive(listed, now) then
          listed.(availableSince := Some(o.observedAt))
        else listed
  }

  // ---------- A detail read ----------

  datatype DetailObservation = DetailObservation(
    fingerprint: Fingerprint,
    url: string,
    expectedCheckId: Option<nat>,
    requestedAt: int,
    name: Option<string>,
    facts: Option<Facts>,
    volume: Option<int>,
    checkedAt: int
  )

  predicate DetailsReplayed(lot: Lot, d: DetailObservation) {
    lot.detailsCheckedAt.Some? && lot.url == d.url && lot.detailsRequestedAt == Some(d.requestedAt)
  }

  predicate DetailsAccepted(lot: Lot, d: DetailObservation) {
    && lot.fingerprint == d.fingerprint
    && lot.url == d.url
    && lot.checkId == d.expectedCheckId
    && (lot.status == Review || lot.status == Pending)
    && lot.bottleId.None?
    && lot.detailsRequestedAt == Some(d.requestedAt)
    && lot.detailsCheckedAt.None?
    && d.checkedAt >= d.requestedAt
  }

  function KnownFacts(facts: Facts): Facts {
    map key | key in facts && facts[key].Some? :: facts[key]
  }

  /** Facts of a page with the lot's own title are added; values it does not know are kept. */
  function DetailedLot(rules: Rules, lot: Lot, d: DetailObservation): Lot {
    if DetailsReplayed(lot, d) || !DetailsAccepted(lot, d) then lot
    else
      var sameTitle := d.name.Some? && rules.normalize(d.name.value) == rules.normalize(lot.name);
      var merged :=
        if sameTitle && d.facts.Some? then Some(lot.facts.GetOr(map[]) + KnownFacts(d.facts.value)) else lot.facts;
      var facts := if merged.Some? then Some(rules.defaultFacts + merged.value) else None;
      var volume := if sameTitle && d.volume.Some? then d.volume else lot.volume;
      var fingerprint := IdentityFingerprint(rules, lot.name, volume, facts);
      var changed := fingerprint != lot.fingerprint;
      lot.(volume := volume, facts := facts, detailsCheckedAt := Some(d.checkedAt), fingerprint := fingerprint,
           status := if changed then Pending else lot.status,
           checkId := if changed then None else lot.checkId)
  }

  predicate DetailsWanted(rules: Rules, lot: Lot, fingerprint: Fingerprint) {
    && lot.fingerprint == fingerprint
    && (lot.status == Pending || lot.status == Review)
    && lot.bottleId.None?
    && lot.detailsCheckedAt.None?
    && rules.readsDetails(lot.site)
  }

  function DetailsRequested(lot: Lot, now: int): Lot {
    lot.(detailsRequestedAt := Some(lot.detailsRequestedAt.GetOr(now)))
  }

  // ---------- Assigning a Bottle ----------

  datatype Reference = Reference(id: nat, name: string, bottleId: nat, ignored: bool)

  datatype Assignment = Assignment(
    bottleId: nat,
    fingerprint: Fingerprint,
    expectedBottleId: Option<nat>,
    userId: Option<nat>,
    checkId: Option<nat>,
    referenceName: Option<string>,
    automatic: bool,
    createsBottle: bool,
    expectedCheckId: Supplied<Option<nat>>
  )

  /** What the assignment finds besides the lot: the Bottle's state and the named reference. */
  datatype Catalog = Catalog(bottleActive: bool, reference: Option<Reference>)

  predicate StillAsExpected(lot: Lot, a: Assignment) {
    && lot.fingerprint == a.fingerprint
    && lot.bottleId == a.expectedBottleId
    && (a.expectedCheckId.Given? ==> lot.checkId == a.expectedCheckId.value)
    && lot.status != Ignored
    && (a.automatic ==> lot.status == Pending && lot.checkId == a.checkId)
  }

  predicate EvidenceSuffices(rules: Rules, lot: Lot, check: Option<Check>, a: Assignment) {
    && (a.checkId.Some? ==> check.Some? && ReadEvidence(rules, lot, check.value).Some?)
    && (a.automatic ==>
          && check.Some?
          && var assessment := AssessMatch(rules, lot, check.value);
             && assessment.Some? && assessment.value.eligible
             && (if a.createsBottle then check.value.output == Classified(CreateBottle)
                 else assessment.value.bottleId == Some(a.bottleId))
             && assessment.value.referenceName == a.referenceName)
  }

  predicate CatalogAgrees(rules: Rules, lot: Lot, a: Assignment, c: Catalog) {
    && c.bottleActive
    && (a.referenceName.Some? ==>
          c.reference.Some? && c.reference.value.bottleId == a.bottleId && !c.reference.value.ignored)
    && (a.referenceName.Some? || a.automatic ==> !rules.conflicts(lot.facts, a.bottleId))
  }

  function SavedCheckId(lot: Lot, a: Assignment): Option<nat> {
    if a.checkId.Some? then a.checkId else lot.checkId
  }

  /** None when the assignment is refused because something changed or disagrees. */
  function AssignedLot(rules: Rules, lot: Lot, check: Option<Check>, a: Assignment, c: Catalog, now: int): Option<Lot> {
    if !StillAsExpected(lot, a) || !EvidenceSuffices(rules, lot, check, a) || !CatalogAgrees(rules, lot, a, c) then None
    else
      Some(lot.(
        bottleId := Some(a.bottleId),
        status := Matched,
        matchedAt := Some(now),
        matchedById := a.userId,
        checkId := SavedCheckId(lot, a),
        referenceId := if a.referenceName.Some? then Some(c.reference.value.id) else None,
        availableSince :=
          if IsLive(lot, now) then
            (if lot.bottleId == Some(a.bottleId) then Some(lot.availableSince.GetOr(now)) else Some(now))
          else None))
  }

  // ---------- Ignoring and reopening ----------

  function IgnoredLot(lot: Lot, fingerprint: Fingerprint, expectedBottleId: Option<nat>, expectedCheckId: Option<nat>,
      userId: nat, now: int): Option<Lot>
  {
    if lot.fingerprint != fingerprint || lot.bottleId != expectedBottleId || lot.checkId != expectedCheckId
       || lot.status == Ignored
    then None
    else Some(lot.(bottleId := None, status := Ignored, referenceId := None, matchedById := Some(userId),
                   matchedAt := Some(now), availableSince := None))
  }

  function ReopenedLot(lot: Lot, fingerprint: Fingerprint, expectedCheckId: Option<nat>): Option<Lot> {
    if lot.fingerprint != fingerprint || lot.checkId != expectedCheckId || lot.status != Ignored then None
    else Some(lot.(status := Review, matchedById := None, matchedAt := None))
  }

  // ---------- Guarded updates of a worker ----------

  predicate PendingFor(lot: Lot, fingerprint: Fingerprint) {
    lot.fingerprint == fingerprint && lot.status == Pending && lot.bottleId.None?
  }

  function MarkedLot(lot: Lot, checkId: nat): Lot {
    lot.(checkId := Some(checkId))
  }

  function HeldLot(lot: Lot, check: Option<CheckOutput>): Lot {
    lot.(status := if check == Some(IgnoredOutput) then Ignored else Review)
  }

  // ---------- What every transaction keeps ----------

  /** Matched exactly with a Bottle, available only with a Bottle, and fingerprinted by its own identity. */
  ghost predicate SoundLot(rules: Rules, lot: Lot) {
    && (lot.status == Matched <==> lot.bottleId.Some?)
    && (lot.availableSince.Some? ==> lot.bottleId.Some?)
    && lot.fingerprint == IdentityFingerprint(rules, lot.name, lot.volume, lot.facts)
  }

  /** A saved check id names a check of the lot's current identity. */
  ghost predicate OwnsCheck(checks: seq<Check>, lot: Lot) {
    lot.checkId.Some? ==> lot.checkId.value < |checks| && IsIdentityCheck(lot, checks[lot.checkId.value])
  }

  ghost predicate Sound(rules: Rules, checks: seq<Check>, lot: Lot) {
    SoundLot(rules, lot) && OwnsCheck(checks, lot)
  }

  lemma ObservationKeepsSound(rules: Rules, checks: seq<Check>, site: nat,
      existing: Option<Lot>, o: Observation, now: int)
    requires existing.Some? ==> Sound(rules, checks, existing.value)
    ensures Sound(rules, checks, ObservedLot(rules, site, existing, o, now))
  {}

  lemma DetailsKeepSound(rules: Rules, checks: seq<Check>, lot: Lot, d: DetailObservation)
    requires Sound(rules, checks, lot)
    ensures Sound(rules, checks, DetailedLot(rules, lot, d))
  {}

  function CheckAt(checks: seq<Check>, id: Option<nat>): Option<Check> {
    if id.Some? && id.value < |checks| then Some(checks[id.value]) else None
  }

  lemma AssignmentKeepsSound(rules: Rules, checks: seq<Check>, lot: Lot, a: Assignment, c: Catalog, now: int)
    requires Sound(rules, checks, lot)
    ensures var after := AssignedLot(rules, lot, CheckAt(checks, SavedCheckId(lot, a)), a, c, now);
            after.Some? ==> Sound(rules, checks, after.value)
  {}

  lemma ModerationKeepsSound(rules: Rules, checks: seq<Check>, lot: Lot, fingerprint: Fingerprint,
      expectedBottleId: Option<nat>, expectedCheckId: Option<nat>, userId: nat, now: int)
    requires Sound(rules, checks, lot)
    ensures var ignored := IgnoredLot(lot, fingerprint, expectedBottleId, expectedCheckId, userId, now);
            ignored.Some? ==> Sound(rules, checks, ignored.value)
    ensures var reopened := ReopenedLot(lot, fingerprint, expectedCheckId);
            reopened.Some? ==> Sound(rules, checks, reopened.value)
  {}
}
