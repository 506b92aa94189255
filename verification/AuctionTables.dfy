/** The auction tables, and the transactions that update them. Each method is one transaction. */
module AuctionTables {
  import opened Wrappers
  import opened AuctionRows

  type Lots = map<nat, Lot>

  // ---------- Checks shared between identical lots ----------

  /** Another lot of the same site with the same fingerprint. */
  predicate IsTwin(lots: Lots, lotId: nat, site: nat, fingerprint: Fingerprint, twin: nat) {
    twin in lots && twin != lotId && lots[twin].site == site && lots[twin].fingerprint == fingerprint
  }

  predicate IsTwinCheck(lots: Lots, lotId: nat, site: nat, fingerprint: Fingerprint, check: Check) {
    && check.key.Some?
    && check.key.value.fingerprint == fingerprint
    && IsTwin(lots, lotId, site, fingerprint, check.key.value.lotId)
  }

  /** The oldest check saved for a twin: the least index at or after `from`. */
  function TwinCheck(lots: Lots, checks: seq<Check>, lotId: nat, site: nat,
      fingerprint: Fingerprint, from: nat): Option<nat>
    requires from <= |checks|
    decreases |checks| - from
  {
    if from == |checks| then None
    else if IsTwinCheck(lots, lotId, site, fingerprint, checks[from]) then Some(from)
    else TwinCheck(lots, checks, lotId, site, fingerprint, from + 1)
  }

  datatype Shared = Found(checkId: nat) | Wait | NoneShared

  /** A twin's check, else "wait" while a twin with a smaller id is pending, else nothing. */
  function FindShared(lots: Lots, checks: seq<Check>, lotId: nat, site: nat, fingerprint: Fingerprint): Shared {
    var check := TwinCheck(lots, checks, lotId, site, fingerprint, 0);
    if check.Some? then Found(check.value)
    else if exists twin :: twin in lots && IsTwin(lots, lotId, site, fingerprint, twin)
                           && twin < lotId && lots[twin].status == Pending
    then Wait
    else NoneShared
  }

  lemma {:induction false} TwinCheckIsOldest(lots: Lots, checks: seq<Check>, lotId: nat, site: nat,
      fingerprint: Fingerprint, from: nat)
    requires from <= |checks|
    ensures var found := TwinCheck(lots, checks, lotId, site, fingerprint, from);
            && (found.Some? ==>
                  from <= found.value < |checks| && IsTwinCheck(lots, lotId, site, fingerprint, checks[found.value]))
            && (forall i :: from <= i < (if found.Some? then found.value else |checks|) ==>
                  !IsTwinCheck(lots, lotId, site, fingerprint, checks[i]))
    decreases |checks| - from
  {
    if from < |checks| { TwinCheckIsOldest(lots, checks, lotId, site, fingerprint, from + 1); }
  }

  /** The check saved under `key`, if any. */
  function CheckWithKey(checks: seq<Check>, key: CheckKey, from: nat): Option<nat>
    requires from <= |checks|
    decreases |checks| - from
  {
    if from == |checks| then None
    else if checks[from].key == Some(key) then Some(from)
    else CheckWithKey(checks, key, from + 1)
  }

  lemma {:induction false} CheckWithKeyFinds(checks: seq<Check>, key: CheckKey, from: nat)
    requires from <= |checks|
    ensures var found := CheckWithKey(checks, key, from);
            && (found.Some? ==> from <= found.value < |checks| && checks[found.value].key == Some(key))
            && (found.None? ==> forall i :: from <= i < |checks| ==> checks[i].key != Some(key))
    decreases |checks| - from
  {
    if from < |checks| { CheckWithKeyFinds(checks, key, from + 1); }
  }

  /** A result of the classifier for one lot and identity. */
  function LotCheck(lotId: nat, fingerprint: Fingerprint, name: string, output: CheckOutput,
      exact: bool, exactReference: Option<string>): Check
  {
    Check(true, lotId, Some(CheckKey(lotId, fingerprint)), true, lotId, name, output, exact, exactReference)
  }

  /** The checks and the applied check after the locked save: a twin's check wins, then an own check. */
  function SavedCheck(lots: Lots, checks: seq<Check>, lotId: nat, site: nat, fingerprint: Fingerprint, check: Check)
    : (seq<Check>, nat)
  {
    var shared := FindShared(lots, checks, lotId, site, fingerprint);
    if shared.Found? then (checks, shared.checkId)
    else
      var own := CheckWithKey(checks, CheckKey(lotId, fingerprint), 0);
      if own.Some? then (checks, own.value) else (checks + [check], |checks|)
  }

  // ---------- What the tables always satisfy ----------

  ghost predicate LotsAreSound(rules: Rules, lots: Lots, checks: seq<Check>) {
    forall id :: id in lots ==> Sound(rules, checks, lots[id])
  }

  /** A lot check is keyed by its own lot and identity, and no key is used twice. */
  ghost predicate ChecksAreKeyed(lots: Lots, checks: seq<Check>) {
    && (forall i :: 0 <= i < |checks| && checks[i].key.Some? ==>
          checks[i].auctionLot && checks[i].sourceId == checks[i].key.value.lotId
          && checks[i].key.value.lotId in lots)
    && (forall i, j :: 0 <= i < j < |checks| && checks[i].key.Some? ==> checks[i].key != checks[j].key)
  }

  /** `checkId` was saved for `fingerprint` by a lot on `site`. */
  ghost predicate SavedFor(lots: Lots, checks: seq<Check>, checkId: nat, site: nat, fingerprint: Fingerprint) {
    && checkId < |checks|
    && checks[checkId].key.Some?
    && checks[checkId].key.value.fingerprint == fingerprint
    && checks[checkId].key.value.lotId in lots
    && lots[checks[checkId].key.value.lotId].site == site
  }

  // ---------- What a transaction does to a lot ----------

  ghost predicate OtherLotsKept(before: Lots, after: Lots, lotId: nat) {
    forall id :: id != lotId ==> (id in before <==> id in after) && (id in before ==> after[id] == before[id])
  }

  ghost predicate SameListing(lot: Lot, after: Lot) {
    && after.site == lot.site && after.name == lot.name && after.url == lot.url
    && after.state == lot.state && after.lastCheckedAt == lot.lastCheckedAt
  }

  ghost predicate SameIdentity(lot: Lot, after: Lot) {
    after.volume == lot.volume && after.facts == lot.facts && after.fingerprint == lot.fingerprint
  }

  ghost predicate SameMatch(lot: Lot, after: Lot) {
    && after.bottleId == lot.bottleId && after.status == lot.status && after.checkId == lot.checkId
    && after.referenceId == lot.referenceId && after.matchedById == lot.matchedById && after.matchedAt == lot.matchedAt
  }

  ghost predicate Unmatched(lot: Lot) {
    && lot.bottleId.None? && lot.status == Pending && lot.checkId.None? && lot.referenceId.None?
    && lot.matchedById.None? && lot.matchedAt.None? && lot.availableSince.None?
  }

  ghost predicate Lists(lot: Lot, o: Observation) {
    lot.name == o.name && lot.url == o.url && lot.state == o.state && lot.lastCheckedAt == o.observedAt
  }

  /** The volume and facts an observation supplies are taken; those it leaves out stay under the same title only. */
  ghost predicate TakesIdentity(existing: Option<Lot>, after: Lot, o: Observation) {
    var kept := existing.Some? && existing.value.name == o.name;
    && (o.volume.Given? ==> after.volume == o.volume.value)
    && (o.volume.Omitted? ==> after.volume == if kept then existing.value.volume else None)
    && (o.facts.Given? ==> after.facts == o.facts.value)
    && (o.facts.Omitted? ==> after.facts == if kept then existing.value.facts else None)
  }

  /** The end is the supplied one, else the one already known, else the auction's. */
  ghost predicate TakesEnd(existing: Option<Lot>, after: Lot, o: Observation) {
    var known := if existing.Some? then existing.value.endsAt else None;
    && (o.endsAt.Given? ==> after.endsAt == o.endsAt.value)
    && (o.endsAt.Omitted? && known.Some? ==> after.endsAt == known)
    && (o.endsAt.Omitted? && known.None? ==> after.endsAt == o.auctionEndsAt)
  }

  ghost predicate SameRequest(lot: Lot, after: Lot) {
    after.detailsRequestedAt == lot.detailsRequestedAt && after.detailsCheckedAt == lot.detailsCheckedAt
  }

  ghost predicate NothingRequested(lot: Lot) {
    lot.detailsRequestedAt.None? && lot.detailsCheckedAt.None?
  }

  /** The newer of row and observation is listed; the match survives exactly with the identity, and a request for
      details exactly with identity and URL. A matched lot seen live counts as available from then on. */
  ghost predicate FollowsObservation(existing: Option<Lot>, after: Lot, o: Observation, now: int) {
    if existing.None? then
      Lists(after, o) && TakesIdentity(existing, after, o) && TakesEnd(existing, after, o)
      && Unmatched(after) && NothingRequested(after)
    else
      var lot := existing.value;
      if o.observedAt <= lot.lastCheckedAt then after == lot
      else
        && Lists(after, o) && after.site == lot.site
        && TakesIdentity(existing, after, o) && TakesEnd(existing, after, o)
        && (if after.fingerprint == lot.fingerprint && o.url == lot.url then SameRequest(lot, after)
            else NothingRequested(after))
        && (if after.fingerprint == lot.fingerprint then SameMatch(lot, after) else Unmatched(after))
        && (after.fingerprint == lot.fingerprint ==>
              after.availableSince == if lot.availableSince.Some? || lot.bottleId.None? || !IsLive(after, now)
                                      then lot.availableSince else Some(o.observedAt))
  }

  /** What is known under `key`. */
  function FactOf(facts: Option<Facts>, key: string): Option<string> {
    if facts.Some? && key in facts.value then facts.value[key] else None
  }

  ghost predicate KnowsFact(lot: Lot, key: string) {
    FactOf(lot.facts, key).Some?
  }

  /** The page carries the lot's own title. */
  ghost predicate SameTitle(rules: Rules, lot: Lot, d: DetailObservation) {
    d.name.Some? && rules.normalize(d.name.value) == rules.normalize(lot.name)
  }

  /** The facts of a page under the lot's own title. */
  ghost function PageFacts(rules: Rules, lot: Lot, d: DetailObservation): Option<Facts> {
    if SameTitle(rules, lot, d) then d.facts else None
  }

  /** The page's value, else the known one, else perhaps the default. */
  ghost predicate SavesFact(rules: Rules, lot: Lot, after: Lot, page: Option<Facts>, key: string) {
    if FactOf(page, key).Some? then FactOf(after.facts, key) == FactOf(page, key)
    else if KnowsFact(lot, key) then FactOf(after.facts, key) == FactOf(lot.facts, key)
    else KnowsFact(after, key) ==> FactOf(after.facts, key) == FactOf(Some(rules.defaultFacts), key)
  }

  /** What a page under the lot's own title knows is saved, and what it does not know stays; a page under another
      title adds nothing. */
  ghost predicate SavesPage(rules: Rules, lot: Lot, after: Lot, d: DetailObservation) {
    && (forall key :: SavesFact(rules, lot, after, PageFacts(rules, lot, d), key))
    && after.volume == (if SameTitle(rules, lot, d) && d.volume.Some? then d.volume else lot.volume)
    && after.detailsRequestedAt == lot.detailsRequestedAt && after.detailsCheckedAt == Some(d.checkedAt)
  }

  /** The page was read for the lot's present URL and its present request. */
  ghost predicate AnswersRequest(lot: Lot, d: DetailObservation) {
    lot.url == d.url && lot.detailsRequestedAt == Some(d.requestedAt)
  }

  /** The lot waits for details under the identity and check they were asked for, and they were read since. */
  ghost predicate StillWanted(lot: Lot, d: DetailObservation) {
    && lot.fingerprint == d.fingerprint && lot.checkId == d.expectedCheckId && lot.bottleId.None?
    && lot.status != Matched && lot.status != Ignored && d.requestedAt <= d.checkedAt
  }

  /** Details never touch the listing or a match. What the page knows is saved once, nothing known is forgotten, and
      the question is reopened exactly when the identity changes. */
  ghost predicate FollowsDetails(rules: Rules, lot: Lot, after: Lot, d: DetailObservation) {
    && SameListing(lot, after) && after.endsAt == lot.endsAt
    && after.bottleId == lot.bottleId && after.availableSince == lot.availableSince
    && (if DetailsReplayed(lot, d) then after == lot else SavesPage(rules, lot, after, d))
    && (forall key :: KnowsFact(lot, key) ==> KnowsFact(after, key))
    && (lot.volume.Some? ==> after.volume.Some?)
    && (if after.fingerprint == lot.fingerprint then SameMatch(lot, after)
        else after.status == Pending && after.checkId.None? && after.bottleId.None?)
  }

  /** An automatic assignment does what the check decided: its Bottle, or the one created for it. */
  ghost predicate CheckDecided(checks: seq<Check>, a: Assignment) {
    && a.checkId.Some? && a.checkId.value < |checks|
    && var output := checks[a.checkId.value].output;
       if a.createsBottle then output == Classified(CreateBottle) else output == Classified(MatchBottle(a.bottleId))
  }

  /** The check can be read, was made for this identity from its own input, and under the lot's name. */
  ghost predicate CheckSpeaksFor(rules: Rules, lot: Lot, check: Check) {
    && check.readable && check.auctionLot && check.key == Some(CheckKey(check.sourceId, lot.fingerprint))
    && check.inputId == check.sourceId && rules.normalize(check.inputName) == rules.normalize(lot.name)
  }

  /** The check a model run makes for a lot speaks for that lot. */
  lemma OwnCheckSpeaksFor(rules: Rules, lotId: nat, lot: Lot, output: CheckOutput, exact: bool,
      exactReference: Option<string>)
    ensures var check := LotCheck(lotId, lot.fingerprint, lot.name, output, exact, exactReference);
            CheckSpeaksFor(rules, lot, check) && check.output == output && check.sourceId == lotId
  {}

  /** The check is eligible for automation, and its exact reference is the one asked for. */
  ghost predicate CheckIsSafe(rules: Rules, lot: Lot, check: Check, a: Assignment) {
    && CheckSpeaksFor(rules, lot, check) && rules.eligible(lot, check)
    && a.referenceName == (if check.exact then check.exactReference else None)
    && (check.exact ==> a.referenceName.Some?)
  }

  /** An automatic assignment is safe: the check it names speaks for the lot, decided this and is eligible for
      automation, the lot waits with just this check, and nothing contradicts the Bottle. */
  ghost predicate SafelyAutomatic(rules: Rules, checks: seq<Check>, lot: Lot, a: Assignment) {
    && lot.status == Pending && lot.bottleId.None? && lot.checkId == a.checkId
    && CheckDecided(checks, a) && CheckIsSafe(rules, lot, checks[a.checkId.value], a)
    && !rules.conflicts(lot.facts, a.bottleId)
  }

  /** The named reference, if any, is an accepted one for this Bottle, and the lot's facts do not contradict it. */
  ghost predicate ReferenceAccepted(rules: Rules, lot: Lot, a: Assignment, c: Catalog) {
    a.referenceName.Some? ==>
      && c.reference.Some? && c.reference.value.bottleId == a.bottleId && !c.reference.value.ignored
      && !rules.conflicts(lot.facts, a.bottleId)
  }

  /** The assignment fits the lot as it stands: against the expected identity and match, to an active Bottle, with
      a reference and a check that hold. */
  ghost predicate Fits(rules: Rules, checks: seq<Check>, lot: Lot, a: Assignment, c: Catalog) {
    && lot.fingerprint == a.fingerprint && lot.bottleId == a.expectedBottleId && lot.status != Ignored
    && (a.expectedCheckId.Given? ==> lot.checkId == a.expectedCheckId.value)
    && c.bottleActive && ReferenceAccepted(rules, lot, a, c)
    && (a.checkId.Some? ==> a.checkId.value < |checks| && CheckSpeaksFor(rules, lot, checks[a.checkId.value]))
    && (a.automatic ==> SafelyAutomatic(rules, checks, lot, a))
  }

  /** A matched lot has the asked Bottle, check and reference; listing and identity stay. */
  ghost predicate FollowsAssignment(lot: Lot, after: Lot, a: Assignment, c: Catalog, now: int) {
    && after.status == Matched && after.bottleId == Some(a.bottleId) && after.matchedById == a.userId
    && after.matchedAt == Some(now) && after.checkId == (if a.checkId.Some? then a.checkId else lot.checkId)
    && SameListing(lot, after) && SameIdentity(lot, after) && after.endsAt == lot.endsAt && SameRequest(lot, after)
    && (a.referenceName.Some? ==> c.reference.Some? && after.referenceId == Some(c.reference.value.id))
    && (a.referenceName.None? ==> after.referenceId.None?)
    && after.availableSince == (if !IsLive(lot, now) then None
                                else if lot.bottleId == after.bottleId && lot.availableSince.Some?
                                then lot.availableSince else Some(now))
  }

  /** The transaction saved `after` for the lot and left every other lot alone, or changed nothing. */
  ghost predicate Replaced(before: Lots, now: Lots, lotId: nat, after: Option<Lot>) {
    && (after.None? ==> now == before)
    && (after.Some? ==> lotId in before && lotId in now && now[lotId] == after.value
                        && OtherLotsKept(before, now, lotId))
  }

  // ---------- Why the transactions do so ----------

  /** A newer observation decides the listing, and the match survives exactly with the identity. */
  lemma ObservationIsFollowed(rules: Rules, site: nat, existing: Option<Lot>, o: Observation, now: int)
    ensures FollowsObservation(existing, ObservedLot(rules, site, existing, o, now), o, now)
  {
    hide AuctionAvailability, IdentityFingerprint, TakesIdentity, TakesEnd;
    if existing.None? || o.observedAt > existing.value.lastCheckedAt {
      ObservationIsTaken(rules, site, existing, o, now);
    }
  }

  lemma ObservationIsTaken(rules: Rules, site: nat, existing: Option<Lot>, o: Observation, now: int)
    requires existing.Some? ==> o.observedAt > existing.value.lastCheckedAt
    ensures var after := ObservedLot(rules, site, existing, o, now);
            TakesIdentity(existing, after, o) && TakesEnd(existing, after, o)
  {
    hide IsLive, IdentityFingerprint;
  }

  lemma ObservedSite(rules: Rules, site: nat, existing: Option<Lot>, o: Observation, now: int)
    ensures ObservedLot(rules, site, existing, o, now).site == if existing.Some? then existing.value.site else site
  {}

  lemma DetailsAreFollowed(rules: Rules, lot: Lot, d: DetailObservation)
    requires DetailsReplayed(lot, d) || DetailsAccepted(lot, d)
    ensures FollowsDetails(rules, lot, DetailedLot(rules, lot, d), d)
  {}

  lemma AssignmentIsFollowed(rules: Rules, checks: seq<Check>, lot: Lot, a: Assignment, c: Catalog, now: int)
    requires SoundLot(rules, lot)
    ensures var after := AssignedLot(rules, lot, CheckAt(checks, SavedCheckId(lot, a)), a, c, now);
            && (after.Some? <==> Fits(rules, checks, lot, a, c))
            && (after.Some? ==> FollowsAssignment(lot, after.value, a, c, now))
  {}

  predicate HoldsFor(lot: Lot, fingerprint: Fingerprint, checkId: nat) {
    PendingFor(lot, fingerprint) && lot.checkId == Some(checkId)
  }

  /** No lot of the site had a check for this identity. */
  ghost predicate NothingSavedFor(lots: Lots, checks: seq<Check>, site: nat, fingerprint: Fingerprint) {
    forall i: nat :: !SavedFor(lots, checks, i, site, fingerprint)
  }

  /** A lot whose check for this identity exists still has the identity. */
  ghost predicate OwnersKeepIdentity(lots: Lots, checks: seq<Check>, site: nat, fingerprint: Fingerprint) {
    forall i: nat :: SavedFor(lots, checks, i, site, fingerprint) ==>
      lots[checks[i].key.value.lotId].fingerprint == fingerprint
  }

  /** What the locked save returns was saved for the site and identity; a check is added only to none. */
  lemma SaveIsFollowed(lots: Lots, checks: seq<Check>, lotId: nat, site: nat, fingerprint: Fingerprint, check: Check)
    requires lotId in lots && lots[lotId].site == site && check.key == Some(CheckKey(lotId, fingerprint))
    ensures var (saved, checkId) := SavedCheck(lots, checks, lotId, site, fingerprint, check);
            && SavedFor(lots, saved, checkId, site, fingerprint)
            && (saved == checks || (saved == checks + [check] && checkId == |checks|))
            && (OwnersKeepIdentity(lots, checks, site, fingerprint) ==>
                  (saved == checks <==> !NothingSavedFor(lots, checks, site, fingerprint)))
  {
    TwinCheckIsOldest(lots, checks, lotId, site, fingerprint, 0);
    CheckWithKeyFinds(checks, CheckKey(lotId, fingerprint), 0);
    var (saved, checkId) := SavedCheck(lots, checks, lotId, site, fingerprint, check);
    if saved == checks {
      assert SavedFor(lots, checks, checkId, site, fingerprint);
    }
    if i: nat :| SavedFor(lots, checks, i, site, fingerprint) {
      assert lots[checks[i].key.value.lotId].fingerprint == fingerprint && checks[i].key.value.lotId != lotId ==>
             IsTwinCheck(lots, lotId, site, fingerprint, checks[i]);
    }
  }

  /** While identical lots keep their identity, the second of them to save gets the first one's check
      and its own result is dropped. */
  lemma SecondSaveReusesFirst(lots: Lots, checks: seq<Check>, lotId: nat, twin: nat, site: nat,
      fingerprint: Fingerprint,
      check: Check, other: Check)
    requires lotId in lots && lots[lotId].site == site && lots[lotId].fingerprint == fingerprint
    requires twin in lots && lots[twin].site == site && lots[twin].fingerprint == fingerprint
    requires check.key == Some(CheckKey(lotId, fingerprint)) && other.key == Some(CheckKey(twin, fingerprint))
    requires NothingSavedFor(lots, checks, site, fingerprint)
    ensures var (saved, checkId) := SavedCheck(lots, checks, lotId, site, fingerprint, check);
            SavedCheck(lots, saved, twin, site, fingerprint, other) == (saved, checkId)
  {
    SaveIsFollowed(lots, checks, lotId, site, fingerprint, check);
    var (saved, checkId) := SavedCheck(lots, checks, lotId, site, fingerprint, check);
    forall i: nat | SavedFor(lots, saved, i, site, fingerprint) ensures i == |checks| {
      if i < |checks| { assert SavedFor(lots, checks, i, site, fingerprint); }
    }
    SaveIsFollowed(lots, saved, twin, site, fingerprint, other);
  }

  lemma SoundLotIsSound(rules: Rules, checks: seq<Check>, lot: Lot)
    requires Sound(rules, checks, lot)
    ensures SoundLot(rules, lot)
  {}

  lemma SoundLotSaved(rules: Rules, lots: Lots, checks: seq<Check>, lotId: nat, lot: Lot)
    requires LotsAreSound(rules, lots, checks) && ChecksAreKeyed(lots, checks) && Sound(rules, checks, lot)
    ensures LotsAreSound(rules, lots[lotId := lot], checks) && ChecksAreKeyed(lots[lotId := lot], checks)
    ensures OtherLotsKept(lots, lots[lotId := lot], lotId)
  {
    hide Sound;
  }

  lemma CheckSaved(rules: Rules, lots: Lots, checks: seq<Check>, check: Check)
    requires LotsAreSound(rules, lots, checks) && ChecksAreKeyed(lots, checks)
    requires check.key.Some? ==>
               && check.auctionLot && check.sourceId == check.key.value.lotId && check.key.value.lotId in lots
               && forall i :: 0 <= i < |checks| ==> checks[i].key != check.key
    ensures LotsAreSound(rules, lots, checks + [check]) && ChecksAreKeyed(lots, checks + [check])
  {
    hide SoundLot;
    forall id | id in lots ensures Sound(rules, checks + [check], lots[id]) { assert Sound(rules, checks, lots[id]); }
  }

  // ---------- Transactions ----------

  class Tables {
    const rules: Rules
    var lots: Lots
    var checks: seq<Check>

    ghost predicate Valid()
      reads this
    {
      LotsAreSound(rules, lots, checks) && ChecksAreKeyed(lots, checks)
    }

    constructor (rules: Rules)
      ensures Valid() && this.rules == rules && lots == map[] && checks == []
    {
      this.rules := rules;
      lots, checks := map[], [];
    }

    method UpsertAuctionObservation(lotId: nat, site: nat, o: Observation, now: int) returns (saved: bool)
      requires Valid() && (lotId in lots ==> lots[lotId].site == site)
      modifies this`lots
      ensures Valid()
      ensures saved <==> o.observedAt <= now + 60_000
      ensures !saved ==> lots == old(lots)
      ensures saved ==>
                && lotId in lots && lots[lotId].site == site && OtherLotsKept(old(lots), lots, lotId)
                && FollowsObservation(if lotId in old(lots) then Some(old(lots)[lotId]) else None, lots[lotId], o,
                     now)
      ensures var existing := if lotId in old(lots) then Some(old(lots)[lotId]) else None;
              lots == if saved then old(lots)[lotId := ObservedLot(rules, site, existing, o, now)] else old(lots)
    {
      if o.observedAt > now + FUTURE_TOLERANCE_MS { return false; }
      var existing := if lotId in lots then Some(lots[lotId]) else None;
      hide Sound, FollowsObservation, ChecksAreKeyed, IsLive, IdentityFingerprint;
      ObservationKeepsSound(rules, checks, site, existing, o, now);
      ObservationIsFollowed(rules, site, existing, o, now);
      SoundLotSaved(rules, lots, checks, lotId, ObservedLot(rules, site, existing, o, now));
      ObservedSite(rules, site, existing, o, now);
      if existing.Some? && o.observedAt <= existing.value.lastCheckedAt {
        assert lots[lotId := existing.value] == lots;
        return true;
      }
      var sameTitle := existing.Some? && existing.value.name == o.name;
      var volume := o.volume.Or(if sameTitle then existing.value.volume else None);
      var facts := o.facts.Or(if sameTitle then existing.value.facts else None);
      var fingerprint := IdentityFingerprint(rules, o.name, volume, facts);
      var changed := existing.Some? && fingerprint != existing.value.fingerprint;
      var values :=
        if existing.Some? then existing.value
        else Lot(site, o.name, o.url, volume, facts, fingerprint, None, Pending, None, None, None, None, None,
                 o.state, o.endsAt.Or(o.auctionEndsAt), None, None, o.observedAt);
      values := values.(name := o.name, url := o.url, volume := volume, facts := facts, fingerprint := fingerprint,
        state := o.state,
        endsAt := o.endsAt.Or(if values.endsAt.Some? then values.endsAt else o.auctionEndsAt),
        lastCheckedAt := o.observedAt);
      if existing.Some? && (changed || existing.value.url != o.url) {
        values := values.(detailsRequestedAt := None, detailsCheckedAt := None);
      }
      if changed {
        values := values.(bottleId := None, status := Pending, checkId := None, referenceId := None,
          matchedById := None, matchedAt := None, availableSince := None);
      }
      if values.bottleId.Some? && values.availableSince.None? && IsLive(values, now) {
        values := values.(availableSince := Some(o.observedAt));
      }
      lots := lots[lotId := values];
      saved := true;
    }

    method SaveAuctionLotDetails(site: nat, lotId: nat, d: DetailObservation, now: int) returns (saved: Option<Lot>)
      requires Valid()
      modifies this`lots
      ensures Valid() && Replaced(old(lots), lots, lotId, saved)
      ensures saved.Some? ==> FollowsDetails(rules, old(lots)[lotId], lots[lotId], d)
      ensures var read := lotId in old(lots) && old(lots)[lotId].site == site && d.checkedAt <= now + 60_000;
              && lots == (if read then old(lots)[lotId := DetailedLot(rules, old(lots)[lotId], d)] else old(lots))
              && (saved.Some? <==>
                   read && AnswersRequest(old(lots)[lotId], d)
                   && (old(lots)[lotId].detailsCheckedAt.Some? || StillWanted(old(lots)[lotId], d)))
              && (saved.Some? ==> saved.value == lots[lotId])
    {
      saved := None;
      if d.checkedAt > now + FUTURE_TOLERANCE_MS || lotId !in lots { return; }
      var lot := lots[lotId];
      assert lots[lotId := lot] == lots;
      if lot.site != site { return; }
      hide Sound, FollowsDetails, ChecksAreKeyed, DetailsReplayed, DetailsAccepted, IdentityFingerprint, KnownFacts;
      DetailsKeepSound(rules, checks, lot, d);
      if DetailsReplayed(lot, d) || DetailsAccepted(lot, d) { DetailsAreFollowed(rules, lot, d); }
      SoundLotSaved(rules, lots, checks, lotId, DetailedLot(rules, lot, d));
      if DetailsReplayed(lot, d) { return Some(lot); }
      if !DetailsAccepted(lot, d) { return; }
      var sameTitle := d.name.Some? && rules.normalize(d.name.value) == rules.normalize(lot.name);
      var facts := lot.facts;
      if sameTitle && d.facts.Some? { facts := Some(lot.facts.GetOr(map[]) + KnownFacts(d.facts.value)); }
      if facts.Some? { facts := Some(rules.defaultFacts + facts.value); }
      var volume := if sameTitle && d.volume.Some? then d.volume else lot.volume;
      var fingerprint := IdentityFingerprint(rules, lot.name, volume, facts);
      var changed := fingerprint != lot.fingerprint;
      lot := lot.(volume := volume, facts := facts, detailsCheckedAt := Some(d.checkedAt), fingerprint := fingerprint);
      if changed { lot := lot.(status := Pending, checkId := None); }
      lots := lots[lotId := lot];
      saved := Some(lot);
    }

    method AssignAuctionLot(lotId: nat, a: Assignment, c: Catalog, now: int) returns (after: Option<Lot>)
      requires Valid()
      modifies this`lots
      ensures Valid() && Replaced(old(lots), lots, lotId, after)
      ensures after.Some? <==> lotId in old(lots) && Fits(rules, checks, old(lots)[lotId], a, c)
      ensures after.Some? ==> FollowsAssignment(old(lots)[lotId], lots[lotId], a, c, now)
      ensures after == if lotId !in old(lots) then None
                       else var lot := old(lots)[lotId];
                            AssignedLot(rules, lot, CheckAt(checks, SavedCheckId(lot, a)), a, c, now)
      ensures lots == if after.Some? then old(lots)[lotId := after.value] else old(lots)
    {
      after := None;
      if lotId !in lots || !c.bottleActive { return; }
      if a.referenceName.Some?
         && (c.reference.None? || c.reference.value.bottleId != a.bottleId || c.reference.value.ignored) { return; }
      hide Sound, FollowsAssignment, Fits, ChecksAreKeyed, StillAsExpected, EvidenceSuffices, IsLive;
      var lot := lots[lotId];
      AssignmentKeepsSound(rules, checks, lot, a, c, now);
      SoundLotIsSound(rules, checks, lot);
      AssignmentIsFollowed(rules, checks, lot, a, c, now);
      ghost var matched := AssignedLot(rules, lot, CheckAt(checks, SavedCheckId(lot, a)), a, c, now);
      if matched.Some? { SoundLotSaved(rules, lots, checks, lotId, matched.value); }
      if !StillAsExpected(lot, a) { return; }
      var check := CheckAt(checks, if a.checkId.Some? then a.checkId else lot.checkId);
      if !EvidenceSuffices(rules, lot, check, a) { return; }
      if (a.referenceName.Some? || a.automatic) && rules.conflicts(lot.facts, a.bottleId) { return; }
      var availableSince := None;
      if IsLive(lot, now) {
        availableSince := if lot.bottleId == Some(a.bottleId) && lot.availableSince.Some?
          then lot.availableSince else Some(now);
      }
      lot := lot.(
        bottleId := Some(a.bottleId), status := Matched, matchedAt := Some(now), matchedById := a.userId,
        checkId := if a.checkId.Some? then a.checkId else lot.checkId,
        referenceId := if a.referenceName.Some? then Some(c.reference.value.id) else None,
        availableSince := availableSince);
      lots := lots[lotId := lot];
      after := Some(lot);
    }

    method IgnoreAuctionLot(lotId: nat, fingerprint: Fingerprint, expectedBottleId: Option<nat>,
        expectedCheckId: Option<nat>, userId: nat, now: int) returns (after: Option<Lot>)
      requires Valid()
      modifies this`lots
      ensures Valid() && Replaced(old(lots), lots, lotId, after)
      ensures after.Some? <==>
                && lotId in old(lots) && old(lots)[lotId].fingerprint == fingerprint
                && old(lots)[lotId].bottleId == expectedBottleId && old(lots)[lotId].checkId == expectedCheckId
                && old(lots)[lotId].status != Ignored
      ensures after.Some? ==>
                && after.value.matchedById == Some(userId) && after.value.matchedAt == Some(now)
                && after.value.referenceId.None? && SameRequest(old(lots)[lotId], after.value)
                && after.value.endsAt == old(lots)[lotId].endsAt
                && after.value.status == Ignored && after.value.bottleId.None? && after.value.availableSince.None?
                && SameListing(old(lots)[lotId], after.value) && SameIdentity(old(lots)[lotId], after.value)
                && after.value.checkId == old(lots)[lotId].checkId
      ensures after == if lotId !in old(lots) then None
                       else IgnoredLot(old(lots)[lotId], fingerprint, expectedBottleId, expectedCheckId, userId, now)
      ensures lots == if after.Some? then old(lots)[lotId := after.value] else old(lots)
    {
      after := None;
      if lotId !in lots { return; }
      var lot := lots[lotId];
      if lot.fingerprint != fingerprint || lot.bottleId != expectedBottleId || lot.checkId != expectedCheckId
         || lot.status == Ignored { return; }
      ModerationKeepsSound(rules, checks, lot, fingerprint, expectedBottleId, expectedCheckId, userId, now);
      lot := lot.(bottleId := None, status := Ignored, referenceId := None, matchedById := Some(userId),
        matchedAt := Some(now), availableSince := None);
      SoundLotSaved(rules, lots, checks, lotId, lot);
      lots := lots[lotId := lot];
      after := Some(lot);
    }

    method ReopenAuctionLot(lotId: nat, fingerprint: Fingerprint, expectedCheckId: Option<nat>)
        returns (after: Option<Lot>)
      requires Valid()
      modifies this`lots
      ensures Valid() && Replaced(old(lots), lots, lotId, after)
      ensures after.Some? <==>
                && lotId in old(lots) && old(lots)[lotId].fingerprint == fingerprint
                && old(lots)[lotId].checkId == expectedCheckId && old(lots)[lotId].status == Ignored
      ensures after.Some? ==>
                && after.value.matchedById.None? && after.value.matchedAt.None?
                && SameRequest(old(lots)[lotId], after.value) && after.value.endsAt == old(lots)[lotId].endsAt
                && after.value.status == Review && after.value.bottleId.None?
                && SameListing(old(lots)[lotId], after.value) && SameIdentity(old(lots)[lotId], after.value)
                && after.value.checkId == old(lots)[lotId].checkId
      ensures after == if lotId !in old(lots) then None
                       else ReopenedLot(old(lots)[lotId], fingerprint, expectedCheckId)
      ensures lots == if after.Some? then old(lots)[lotId := after.value] else old(lots)
    {
      after := None;
      if lotId !in lots { return; }
      var lot := lots[lotId];
      if lot.fingerprint != fingerprint || lot.checkId != expectedCheckId || lot.status != Ignored { return; }
      ModerationKeepsSound(rules, checks, lot, fingerprint, None, expectedCheckId, 0, 0);
      lot := lot.(status := Review, matchedById := None, matchedAt := None);
      SoundLotSaved(rules, lots, checks, lotId, lot);
      lots := lots[lotId := lot];
      after := Some(lot);
    }

    /** The first update of `applyAuctionLotCheck`; None when the lot has moved on. */
    method MarkCheck(lotId: nat, ghost site: nat, fingerprint: Fingerprint, checkId: nat) returns (current: Option<Lot>)
      requires Valid() && SavedFor(lots, checks, checkId, site, fingerprint)
      modifies this`lots
      ensures Valid() && Replaced(old(lots), lots, lotId, current)
      ensures current.Some? ==>
                HoldsFor(lots[lotId], fingerprint, checkId)
                && lots[lotId] == old(lots)[lotId].(checkId := lots[lotId].checkId)
      ensures current.Some? <==> lotId in old(lots) && PendingFor(old(lots)[lotId], fingerprint)
      ensures lots == if current.Some? then old(lots)[lotId := current.value] else old(lots)
      ensures current.Some? ==> current.value == MarkedLot(old(lots)[lotId], checkId)
    {
      current := None;
      if lotId in lots && PendingFor(lots[lotId], fingerprint) {
        assert Sound(rules, checks, lots[lotId]);
        SoundLotSaved(rules, lots, checks, lotId, MarkedLot(lots[lotId], checkId));
        lots := lots[lotId := lots[lotId].(checkId := Some(checkId))];
        current := Some(lots[lotId]);
      }
    }

    /** The last update of `applyAuctionLotCheck`, for a decision that is not applied automatically. */
    method HoldLot(lotId: nat, fingerprint: Fingerprint, checkId: nat, evidence: Option<CheckOutput>)
        returns (held: bool)
      requires Valid()
      modifies this`lots
      ensures Valid() && (held ==> lotId in lots && lotId in old(lots))
      ensures Replaced(old(lots), lots, lotId, if held then Some(lots[lotId]) else None)
      ensures held ==>
                && !PendingFor(lots[lotId], fingerprint) && lots[lotId].bottleId.None?
                && (lots[lotId].status == Ignored <==> evidence == Some(IgnoredOutput))
                && lots[lotId] == old(lots)[lotId].(status := lots[lotId].status)
      ensures held <==> lotId in old(lots) && PendingFor(old(lots)[lotId], fingerprint)
                        && old(lots)[lotId].checkId == Some(checkId)
      ensures lots == if held then old(lots)[lotId := HeldLot(old(lots)[lotId], evidence)] else old(lots)
    {
      held := lotId in lots && PendingFor(lots[lotId], fingerprint) && lots[lotId].checkId == Some(checkId);
      if held {
        var ignored := evidence == Some(IgnoredOutput);
        assert Sound(rules, checks, lots[lotId]);
        SoundLotSaved(rules, lots, checks, lotId, HeldLot(lots[lotId], evidence));
        lots := lots[lotId := lots[lotId].(status := if ignored then Ignored else Review)];
      }
    }

    /** The locked save after a model run. The first saved check for an identity wins. */
    method SaveCheck(lotId: nat, site: nat, fingerprint: Fingerprint, check: Check) returns (checkId: nat)
      requires Valid() && lotId in lots && lots[lotId].site == site
      requires check.auctionLot && check.sourceId == lotId && check.key == Some(CheckKey(lotId, fingerprint))
      modifies this`checks
      ensures Valid() && SavedFor(lots, checks, checkId, site, fingerprint)
      ensures checks == old(checks) || (checks == old(checks) + [check] && checkId == |old(checks)|)
      ensures OwnersKeepIdentity(lots, old(checks), site, fingerprint) ==>
                (checks == old(checks) <==> !NothingSavedFor(lots, old(checks), site, fingerprint))
      ensures (checks, checkId) == SavedCheck(lots, old(checks), lotId, site, fingerprint, check)
    {
      hide LotsAreSound, SavedFor, NothingSavedFor, OwnersKeepIdentity, TwinCheck;
      SaveIsFollowed(lots, checks, lotId, site, fingerprint, check);
      CheckWithKeyFinds(checks, CheckKey(lotId, fingerprint), 0);
      var shared := FindShared(lots, checks, lotId, site, fingerprint);
      if shared.Found? { return shared.checkId; }
      var own := CheckWithKey(checks, CheckKey(lotId, fingerprint), 0);
      if own.Some? { return own.value; }
      CheckSaved(rules, lots, checks, check);
      checkId := |checks|;
      checks := checks + [check];
    }
  }
}
