/** Scrapers, detail reads, matching workers and moderators acting on shared auction lots. One step is one
    transaction or guarded update; between its steps a worker keeps what it read, however stale. */
module AuctionProtocol {
  import opened Wrappers
  import opened AuctionRows
  import opened AuctionTables

  // ---------- State ----------

  /** Where `resolveAuctionLotMatch` stands, with what it remembers. */
  datatype Place =
    | TryingReference(lot: Lot, classify: bool)
    | Rereading(lot: Lot, classify: bool)
    | FindingOwnCheck(lot: Lot, classify: bool)
    | RequestingDetails(lot: Lot, classify: bool)
    | FindingShared(lot: Lot, classify: bool)
    | RereadingForModel
    | RunningModel(lot: Lot)
    | Marking(checkId: nat)
    | Assigning(checkId: nat, current: Lot)
    | Holding(checkId: nat, current: Lot)
    | FollowingUp

  datatype Worker = Worker(lotId: nat, fingerprint: Fingerprint, place: Place)

  datatype State = State(lots: Lots, checks: seq<Check>, workers: map<nat, Worker>)

  /** What the world answers during one worker step. */
  datatype Answers = Answers(
    now: int,
    reference: Option<Reference>,
    bottleActive: bool,
    createdBottleId: nat,
    output: CheckOutput,
    exact: bool,
    exactReference: Option<string>
  )

  datatype Step =
    | Observe(lotId: nat, site: nat, observation: Observation, now: int)
    | ReadDetails(site: nat, lotId: nat, details: DetailObservation, now: int)
    | ModeratorAssigns(lotId: nat, assignment: Assignment, catalog: Catalog, now: int)
    | ModeratorIgnores(lotId: nat, fingerprint: Fingerprint, expectedBottleId: Option<nat>,
                       expectedCheckId: Option<nat>, userId: nat, now: int)
    | ModeratorReopens(lotId: nat, fingerprint: Fingerprint, expectedCheckId: Option<nat>)
    | SaveOtherCheck(check: Check)
    | StartWorker(worker: nat, lotId: nat, fingerprint: Fingerprint, classify: bool)
    | Work(worker: nat, answers: Answers)

  const INITIAL := State(map[], [], map[])

  // ---------- Steps ----------

  function WithLot(s: State, lotId: nat, lot: Option<Lot>): State {
    if lot.Some? then s.(lots := s.lots[lotId := lot.value]) else s
  }

  function Done(s: State, w: nat): State {
    s.(workers := s.workers - {w})
  }

  function Moved(s: State, w: nat, place: Place): State
    requires w in s.workers
  {
    s.(workers := s.workers[w := s.workers[w].(place := place)])
  }

  /** The first read of a job; a miniature is ignored before anything else. */
  function Started(s: State, w: nat, lotId: nat, fingerprint: Fingerprint, classify: bool): State {
    if lotId !in s.lots || s.lots[lotId].fingerprint != fingerprint || s.lots[lotId].status != Pending then s
    else if IsMiniature(s.lots[lotId]) then
      (if s.lots[lotId].bottleId.None? then WithLot(s, lotId, Some(s.lots[lotId].(status := Ignored))) else s)
    else
      s.(workers := s.workers[w := Worker(lotId, fingerprint, TryingReference(s.lots[lotId], classify))])
  }

  function Assigned(rules: Rules, s: State, lotId: nat, a: Assignment, c: Catalog, now: int): Option<Lot> {
    if lotId !in s.lots then None
    else AssignedLot(rules, s.lots[lotId], CheckAt(s.checks, SavedCheckId(s.lots[lotId], a)), a, c, now)
  }

  /** Reuse an accepted reference when the remembered facts do not contradict its Bottle. */
  function ReferenceTried(rules: Rules, s: State, w: nat, k: Worker, x: Answers): State
    requires w in s.workers && k.place.TryingReference?
  {
    if x.reference.None? || rules.conflicts(k.place.lot.facts, x.reference.value.bottleId) then
      Moved(s, w, FindingOwnCheck(k.place.lot, k.place.classify))
    else
      var a := Assignment(x.reference.value.bottleId, k.fingerprint, None, None, None, Some(x.reference.value.name),
                          false, false, Omitted);
      var after := Assigned(rules, s, k.lotId, a, Catalog(x.bottleActive, x.reference), x.now);
      if after.Some? then Done(WithLot(s, k.lotId, after), w)
      else Moved(s, w, Rereading(k.place.lot, k.place.classify))
  }

  function DetailsAsked(rules: Rules, s: State, k: Worker, now: int): State {
    if k.lotId in s.lots && DetailsWanted(rules, s.lots[k.lotId], k.fingerprint)
    then WithLot(s, k.lotId, Some(DetailsRequested(s.lots[k.lotId], now))) else s
  }

  /** Apply an eligible decision, or leave it for the last update to hold. */
  function DecisionApplied(rules: Rules, s: State, w: nat, k: Worker, x: Answers): State
    requires w in s.workers && k.place.Assigning?
  {
    var check := CheckAt(s.checks, Some(k.place.checkId));
    var assessment := if check.Some? then AssessMatch(rules, k.place.current, check.value) else None;
    if assessment.None? || !assessment.value.eligible then Moved(s, w, Holding(k.place.checkId, k.place.current))
    else
      var a := Assignment(assessment.value.bottleId.GetOr(x.createdBottleId), k.fingerprint, None, None,
                          Some(k.place.checkId), assessment.value.referenceName, true,
                          assessment.value.bottleId.None?, Omitted);
      var after := Assigned(rules, s, k.lotId, a, Catalog(x.bottleActive, x.reference), x.now);
      if after.Some? then Done(WithLot(s, k.lotId, after), w)
      else Moved(s, w, Holding(k.place.checkId, k.place.current))
  }

  function WorkerStep(rules: Rules, s: State, w: nat, x: Answers): State
    requires w in s.workers
  {
    var k := s.workers[w];
    match k.place
    case TryingReference(lot, classify) => ReferenceTried(rules, s, w, k, x)
    case Rereading(lot, classify) =>
      if k.lotId in s.lots && PendingFor(s.lots[k.lotId], k.fingerprint)
      then Moved(s, w, FindingOwnCheck(lot, classify)) else Done(s, w)
    case FindingOwnCheck(lot, classify) =>
      var own := CheckWithKey(s.checks, CheckKey(k.lotId, k.fingerprint), 0);
      if own.Some? then Moved(s, w, Marking(own.value))
      else if lot.facts.None? then Moved(s, w, RequestingDetails(lot, classify))
      else Moved(s, w, FindingShared(lot, classify))
    case RequestingDetails(lot, classify) =>
      if k.lotId in s.lots && DetailsWanted(rules, s.lots[k.lotId], k.fingerprint)
      then Done(DetailsAsked(rules, s, k, x.now), w)
      else Moved(s, w, FindingShared(lot, classify))
    case FindingShared(lot, classify) =>
      (match FindShared(s.lots, s.checks, k.lotId, lot.site, k.fingerprint)
       case Wait => Done(s, w)
       case Found(checkId) => Moved(s, w, Marking(checkId))
       case NoneShared => if classify then Moved(s, w, RereadingForModel) else Done(s, w))
    case RereadingForModel =>
      if k.lotId in s.lots && PendingFor(s.lots[k.lotId], k.fingerprint)
      then Moved(s, w, RunningModel(s.lots[k.lotId])) else Done(s, w)
    case RunningModel(lot) =>
      var check := LotCheck(k.lotId, k.fingerprint, lot.name, x.output, x.exact, x.exactReference);
      var (checks, checkId) := SavedCheck(s.lots, s.checks, k.lotId, lot.site, k.fingerprint, check);
      Moved(s.(checks := checks), w, Marking(checkId))
    case Marking(checkId) =>
      if k.lotId in s.lots && PendingFor(s.lots[k.lotId], k.fingerprint) then
        var current := MarkedLot(s.lots[k.lotId], checkId);
        Moved(WithLot(s, k.lotId, Some(current)), w, Assigning(checkId, current))
      else Done(s, w)
    case Assigning(checkId, current) => DecisionApplied(rules, s, w, k, x)
    case Holding(checkId, current) =>
      var check := CheckAt(s.checks, Some(checkId));
      var evidence := if check.Some? then ReadEvidence(rules, current, check.value) else None;
      if k.lotId in s.lots && PendingFor(s.lots[k.lotId], k.fingerprint) && s.lots[k.lotId].checkId == Some(checkId)
      then Moved(WithLot(s, k.lotId, Some(HeldLot(s.lots[k.lotId], evidence))), w, FollowingUp)
      else Moved(s, w, FollowingUp)
    case FollowingUp => Done(DetailsAsked(rules, s, k, x.now), w)
  }

  function Next(rules: Rules, s: State, step: Step): State
  {
    match step
    case Observe(lotId, site, o, now) =>
      if !Timely(o.observedAt, now) || (lotId in s.lots && s.lots[lotId].site != site) then s
      else
        var existing := if lotId in s.lots then Some(s.lots[lotId]) else None;
        WithLot(s, lotId, Some(ObservedLot(rules, site, existing, o, now)))
    case ReadDetails(site, lotId, d, now) =>
      if lotId in s.lots && s.lots[lotId].site == site && Timely(d.checkedAt, now)
      then WithLot(s, lotId, Some(DetailedLot(rules, s.lots[lotId], d))) else s
    case ModeratorAssigns(lotId, a, c, now) =>
      if a.userId.None? || a.automatic then s else WithLot(s, lotId, Assigned(rules, s, lotId, a, c, now))
    case ModeratorIgnores(lotId, fingerprint, bottleId, checkId, userId, now) =>
      if lotId in s.lots then WithLot(s, lotId, IgnoredLot(s.lots[lotId], fingerprint, bottleId, checkId, userId, now))
      else s
    case ModeratorReopens(lotId, fingerprint, checkId) =>
      if lotId in s.lots then WithLot(s, lotId, ReopenedLot(s.lots[lotId], fingerprint, checkId)) else s
    case SaveOtherCheck(check) =>
      if check.auctionLot || check.key.Some? then s else s.(checks := s.checks + [check])
    case StartWorker(w, lotId, fingerprint, classify) =>
      if w in s.workers then s else Started(s, w, lotId, fingerprint, classify)
    case Work(w, answers) =>
      if w in s.workers then WorkerStep(rules, s, w, answers) else s
  }

  // ---------- What every reachable state keeps ----------

  function HeldCheck(place: Place): Option<nat> {
    match place
    case Marking(checkId) => Some(checkId)
    case Assigning(checkId, _) => Some(checkId)
    case Holding(checkId, _) => Some(checkId)
    case _ => None
  }

  function Snapshot(place: Place): Option<Lot> {
    match place
    case TryingReference(lot, _) => Some(lot)
    case Rereading(lot, _) => Some(lot)
    case FindingOwnCheck(lot, _) => Some(lot)
    case RequestingDetails(lot, _) => Some(lot)
    case FindingShared(lot, _) => Some(lot)
    case RunningModel(lot) => Some(lot)
    case _ => None
  }

  ghost predicate WorkerIsSound(s: State, k: Worker) {
    && k.lotId in s.lots
    && (HeldCheck(k.place).Some? ==>
          SavedFor(s.lots, s.checks, HeldCheck(k.place).value, s.lots[k.lotId].site, k.fingerprint))
    && (Snapshot(k.place).Some? ==> Snapshot(k.place).value.site == s.lots[k.lotId].site)
  }

  ghost predicate WorkersAreSound(s: State) {
    forall w :: w in s.workers ==> WorkerIsSound(s, s.workers[w])
  }

  ghost predicate Inv(rules: Rules, s: State) {
    LotsAreSound(rules, s.lots, s.checks) && ChecksAreKeyed(s.lots, s.checks) && WorkersAreSound(s)
  }

  /** Lots keep their row and site, checks are only added. */
  ghost predicate Grows(s: State, next: State) {
    && (forall id :: id in s.lots ==> id in next.lots && next.lots[id].site == s.lots[id].site)
    && |s.checks| <= |next.checks|
    && (forall i :: 0 <= i < |s.checks| ==> next.checks[i] == s.checks[i])
  }

  lemma SoundWorkerStaysSound(s: State, next: State, k: Worker)
    requires Grows(s, next) && WorkerIsSound(s, k)
    ensures WorkerIsSound(next, k)
  {}

  /** Replacing one lot by a sound lot of the same site keeps everything. */
  lemma LotReplaced(rules: Rules, s: State, lotId: nat, lot: Lot)
    requires Inv(rules, s) && Sound(rules, s.checks, lot)
    requires lotId in s.lots ==> s.lots[lotId].site == lot.site
    ensures var next := s.(lots := s.lots[lotId := lot]); Inv(rules, next) && Grows(s, next)
  {
    hide Sound;
    var next := s.(lots := s.lots[lotId := lot]);
    forall w | w in next.workers ensures WorkerIsSound(next, next.workers[w]) {
      SoundWorkerStaysSound(s, next, s.workers[w]);
    }
  }

  lemma WorkerReplaced(rules: Rules, s: State, w: nat, k: Worker)
    requires Inv(rules, s) && WorkerIsSound(s, k)
    ensures Inv(rules, s.(workers := s.workers[w := k]))
    ensures Inv(rules, Done(s, w))
  {
    hide Sound;
    var next, done := s.(workers := s.workers[w := k]), Done(s, w);
    forall v | v in next.workers ensures WorkerIsSound(next, next.workers[v]) {
      assert v != w ==> WorkerIsSound(s, s.workers[v]);
    }
    forall v | v in done.workers ensures WorkerIsSound(done, done.workers[v]) {
      assert WorkerIsSound(s, s.workers[v]);
    }
  }

  lemma CheckAdded(rules: Rules, s: State, check: Check)
    requires Inv(rules, s)
    requires check.key.Some? ==>
               && check.auctionLot && check.sourceId == check.key.value.lotId && check.key.value.lotId in s.lots
               && forall i :: 0 <= i < |s.checks| ==> s.checks[i].key != check.key
    ensures var next := s.(checks := s.checks + [check]); Inv(rules, next) && Grows(s, next)
  {
    hide SoundLot;
    var next := s.(checks := s.checks + [check]);
    forall w | w in next.workers ensures WorkerIsSound(next, next.workers[w]) {
      SoundWorkerStaysSound(s, next, s.workers[w]);
    }
    forall id | id in next.lots ensures Sound(rules, next.checks, next.lots[id]) {
      assert Sound(rules, s.checks, s.lots[id]);
    }
  }

  // ---------- Each step keeps the invariant ----------

  lemma AssignmentKeepsInv(rules: Rules, s: State, lotId: nat, a: Assignment, c: Catalog, now: int)
    requires Inv(rules, s)
    ensures var next := WithLot(s, lotId, Assigned(rules, s, lotId, a, c, now)); Inv(rules, next) && Grows(s, next)
  {
    if lotId in s.lots {
      AssignmentKeepsSound(rules, s.checks, s.lots[lotId], a, c, now);
      var after := Assigned(rules, s, lotId, a, c, now);
      if after.Some? { LotReplaced(rules, s, lotId, after.value); }
    }
  }

  lemma EnvironmentKeepsInv(rules: Rules, s: State, step: Step)
    requires Inv(rules, s) && !step.Work? && !step.StartWorker?
    ensures Inv(rules, Next(rules, s, step)) && Grows(s, Next(rules, s, step))
  {
    hide Sound, AssignedLot, DetailedLot, ObservedLot;
    match step {
      case Observe(lotId, site, o, now) =>
        var existing := if lotId in s.lots then Some(s.lots[lotId]) else None;
        ObservationKeepsSound(rules, s.checks, site, existing, o, now);
        ObservationKeepsSite(rules, site, existing, o, now);
        if lotId !in s.lots || s.lots[lotId].site == site {
          LotReplaced(rules, s, lotId, ObservedLot(rules, site, existing, o, now));
        }
      case ReadDetails(site, lotId, d, now) =>
        if lotId in s.lots {
          DetailsKeepSound(rules, s.checks, s.lots[lotId], d);
          DetailsKeepSite(rules, s.lots[lotId], d);
          LotReplaced(rules, s, lotId, DetailedLot(rules, s.lots[lotId], d));
        }
      case ModeratorAssigns(lotId, a, c, now) => AssignmentKeepsInv(rules, s, lotId, a, c, now);
      case ModeratorIgnores(lotId, fingerprint, bottleId, checkId, userId, now) =>
        if lotId in s.lots {
          ModerationKeepsSound(rules, s.checks, s.lots[lotId], fingerprint, bottleId, checkId, userId, now);
          var after := IgnoredLot(s.lots[lotId], fingerprint, bottleId, checkId, userId, now);
          if after.Some? { LotReplaced(rules, s, lotId, after.value); }
        }
      case ModeratorReopens(lotId, fingerprint, checkId) =>
        if lotId in s.lots {
          ModerationKeepsSound(rules, s.checks, s.lots[lotId], fingerprint, None, checkId, 0, 0);
          var after := ReopenedLot(s.lots[lotId], fingerprint, checkId);
          if after.Some? { LotReplaced(rules, s, lotId, after.value); }
        }
      case SaveOtherCheck(check) =>
        if !check.auctionLot && check.key.None? { CheckAdded(rules, s, check); }
    }
  }

  lemma ObservationKeepsSite(rules: Rules, site: nat, existing: Option<Lot>, o: Observation, now: int)
    ensures ObservedLot(rules, site, existing, o, now).site == if existing.Some? then existing.value.site else site
  {}

  lemma DetailsKeepSite(rules: Rules, lot: Lot, d: DetailObservation)
    ensures DetailedLot(rules, lot, d).site == lot.site
  {}

  lemma StartKeepsInv(rules: Rules, s: State, w: nat, lotId: nat, fingerprint: Fingerprint, classify: bool)
    requires Inv(rules, s)
    ensures var next := Started(s, w, lotId, fingerprint, classify); Inv(rules, next) && Grows(s, next)
  {
    if lotId in s.lots && s.lots[lotId].fingerprint == fingerprint && s.lots[lotId].status == Pending {
      var lot := s.lots[lotId];
      assert Sound(rules, s.checks, lot);
      if IsMiniature(lot) {
        if lot.bottleId.None? { LotReplaced(rules, s, lotId, lot.(status := Ignored)); }
      } else {
        WorkerReplaced(rules, s, w, Worker(lotId, fingerprint, TryingReference(lot, classify)));
      }
    }
  }

  lemma DetailsAskedKeepsInv(rules: Rules, s: State, k: Worker, now: int)
    requires Inv(rules, s)
    ensures var next := DetailsAsked(rules, s, k, now); Inv(rules, next) && Grows(s, next) && next.workers == s.workers
  {
    if k.lotId in s.lots && DetailsWanted(rules, s.lots[k.lotId], k.fingerprint) {
      assert Sound(rules, s.checks, s.lots[k.lotId]);
      LotReplaced(rules, s, k.lotId, DetailsRequested(s.lots[k.lotId], now));
    }
  }

  lemma MovedKeepsInv(rules: Rules, s: State, w: nat, place: Place)
    requires Inv(rules, s) && w in s.workers && WorkerIsSound(s, s.workers[w].(place := place))
    ensures Inv(rules, Moved(s, w, place)) && Grows(s, Moved(s, w, place))
  {
    WorkerReplaced(rules, s, w, s.workers[w].(place := place));
  }

  lemma ReferenceKeepsInv(rules: Rules, s: State, w: nat, k: Worker, x: Answers)
    requires Inv(rules, s) && w in s.workers && s.workers[w] == k && k.place.TryingReference?
    ensures var next := ReferenceTried(rules, s, w, k, x); Inv(rules, next) && Grows(s, next)
  {
    hide LotsAreSound, ChecksAreKeyed, AssignedLot;
    assert WorkerIsSound(s, k);
    MovedKeepsInv(rules, s, w, FindingOwnCheck(k.place.lot, k.place.classify));
    MovedKeepsInv(rules, s, w, Rereading(k.place.lot, k.place.classify));
    if x.reference.Some? {
      var a := Assignment(x.reference.value.bottleId, k.fingerprint, None, None, None, Some(x.reference.value.name),
                          false, false, Omitted);
      var c := Catalog(x.bottleActive, x.reference);
      AssignmentKeepsInv(rules, s, k.lotId, a, c, x.now);
      var after := WithLot(s, k.lotId, Assigned(rules, s, k.lotId, a, c, x.now));
      WorkerReplaced(rules, after, w, k);
    }
  }

  lemma DecisionKeepsInv(rules: Rules, s: State, w: nat, k: Worker, x: Answers)
    requires Inv(rules, s) && w in s.workers && s.workers[w] == k && k.place.Assigning?
    ensures var next := DecisionApplied(rules, s, w, k, x); Inv(rules, next) && Grows(s, next)
  {
    hide LotsAreSound, ChecksAreKeyed, AssignedLot, AssessMatch;
    assert WorkerIsSound(s, k);
    MovedKeepsInv(rules, s, w, Holding(k.place.checkId, k.place.current));
    var check := CheckAt(s.checks, Some(k.place.checkId));
    var assessment := if check.Some? then AssessMatch(rules, k.place.current, check.value) else None;
    if assessment.Some? {
      var a := Assignment(assessment.value.bottleId.GetOr(x.createdBottleId), k.fingerprint, None, None,
                          Some(k.place.checkId), assessment.value.referenceName, true,
                          assessment.value.bottleId.None?, Omitted);
      var c := Catalog(x.bottleActive, x.reference);
      AssignmentKeepsInv(rules, s, k.lotId, a, c, x.now);
      var after := WithLot(s, k.lotId, Assigned(rules, s, k.lotId, a, c, x.now));
      SoundWorkerStaysSound(s, after, k);
      WorkerReplaced(rules, after, w, k);
    }
  }

  /** What the locked save returns was saved for this site and identity. */
  lemma SaveKeepsInv(rules: Rules, s: State, lotId: nat, site: nat, fingerprint: Fingerprint, check: Check)
    requires Inv(rules, s) && lotId in s.lots && s.lots[lotId].site == site
    requires check.auctionLot && check.sourceId == lotId && check.key == Some(CheckKey(lotId, fingerprint))
    ensures var (checks, checkId) := SavedCheck(s.lots, s.checks, lotId, site, fingerprint, check);
            var next := s.(checks := checks);
            Inv(rules, next) && Grows(s, next) && SavedFor(next.lots, next.checks, checkId, site, fingerprint)
  {
    hide LotsAreSound;
    TwinCheckIsOldest(s.lots, s.checks, lotId, site, fingerprint, 0);
    CheckWithKeyFinds(s.checks, CheckKey(lotId, fingerprint), 0);
    var shared := FindShared(s.lots, s.checks, lotId, site, fingerprint);
    var own := CheckWithKey(s.checks, CheckKey(lotId, fingerprint), 0);
    if !shared.Found? && own.None? {
      CheckAdded(rules, s, check);
    } else {
      assert s.(checks := s.checks) == s;
    }
  }

  lemma MarkKeepsInv(rules: Rules, s: State, w: nat, checkId: nat)
    requires Inv(rules, s) && w in s.workers && s.workers[w].place == Marking(checkId)
    requires s.workers[w].lotId in s.lots && PendingFor(s.lots[s.workers[w].lotId], s.workers[w].fingerprint)
    ensures var k := s.workers[w];
            var current := MarkedLot(s.lots[k.lotId], checkId);
            var next := Moved(WithLot(s, k.lotId, Some(current)), w, Assigning(checkId, current));
            Inv(rules, next) && Grows(s, next)
  {
    var k := s.workers[w];
    assert WorkerIsSound(s, k);
    assert Sound(rules, s.checks, s.lots[k.lotId]);
    var current := MarkedLot(s.lots[k.lotId], checkId);
    assert Sound(rules, s.checks, current);
    LotReplaced(rules, s, k.lotId, current);
    hide LotsAreSound, ChecksAreKeyed, Sound;
    MovedKeepsInv(rules, WithLot(s, k.lotId, Some(current)), w, Assigning(checkId, current));
  }

  lemma HoldKeepsInv(rules: Rules, s: State, lotId: nat, evidence: Option<CheckOutput>)
    requires Inv(rules, s) && lotId in s.lots && s.lots[lotId].bottleId.None?
    ensures var next := WithLot(s, lotId, Some(HeldLot(s.lots[lotId], evidence))); Inv(rules, next) && Grows(s, next)
  {
    assert Sound(rules, s.checks, s.lots[lotId]);
    LotReplaced(rules, s, lotId, HeldLot(s.lots[lotId], evidence));
  }

  predicate IsSearching(place: Place) {
    place.FindingOwnCheck? || place.FindingShared?
  }

  predicate IsWaiting(place: Place) {
    place.Rereading? || place.RequestingDetails? || place.RereadingForModel?
  }

  lemma SearchingKeepsInv(rules: Rules, s: State, w: nat, x: Answers)
    requires Inv(rules, s) && w in s.workers && IsSearching(s.workers[w].place)
    ensures Inv(rules, WorkerStep(rules, s, w, x)) && Grows(s, WorkerStep(rules, s, w, x))
  {
    hide LotsAreSound, ChecksAreKeyed, FindShared, ReferenceTried, DecisionApplied;
    hide SavedCheck, ReadEvidence, DetailsAsked;
    var k := s.workers[w];
    assert WorkerIsSound(s, k);
    WorkerReplaced(rules, s, w, k);
    match k.place {
      case FindingOwnCheck(lot, classify) =>
        MovedKeepsInv(rules, s, w, RequestingDetails(lot, classify));
        MovedKeepsInv(rules, s, w, FindingShared(lot, classify));
        var own := CheckWithKey(s.checks, CheckKey(k.lotId, k.fingerprint), 0);
        CheckWithKeyFinds(s.checks, CheckKey(k.lotId, k.fingerprint), 0);
        if own.Some? { MovedKeepsInv(rules, s, w, Marking(own.value)); }
      case FindingShared(lot, classify) =>
        MovedKeepsInv(rules, s, w, RereadingForModel);
        SharedKeepsInv(rules, s, w, lot.site);
    }
  }

  lemma WaitingKeepsInv(rules: Rules, s: State, w: nat, x: Answers)
    requires Inv(rules, s) && w in s.workers && IsWaiting(s.workers[w].place)
    ensures Inv(rules, WorkerStep(rules, s, w, x)) && Grows(s, WorkerStep(rules, s, w, x))
  {
    hide LotsAreSound, ChecksAreKeyed, FindShared, ReferenceTried, DecisionApplied;
    hide SavedCheck, ReadEvidence, DetailsAsked;
    var k := s.workers[w];
    assert WorkerIsSound(s, k);
    WorkerReplaced(rules, s, w, k);
    match k.place {
      case Rereading(lot, classify) => MovedKeepsInv(rules, s, w, FindingOwnCheck(lot, classify));
      case RequestingDetails(lot, classify) =>
        MovedKeepsInv(rules, s, w, FindingShared(lot, classify));
        DetailsAskedKeepsInv(rules, s, k, x.now);
        WorkerReplaced(rules, DetailsAsked(rules, s, k, x.now), w, k);
      case RereadingForModel =>
        if k.lotId in s.lots { MovedKeepsInv(rules, s, w, RunningModel(s.lots[k.lotId])); }
    }
  }

  lemma ActingKeepsInv(rules: Rules, s: State, w: nat, x: Answers)
    requires Inv(rules, s) && w in s.workers && !IsSearching(s.workers[w].place) && !IsWaiting(s.workers[w].place)
    ensures Inv(rules, WorkerStep(rules, s, w, x)) && Grows(s, WorkerStep(rules, s, w, x))
  {
    hide LotsAreSound, ChecksAreKeyed, SavedCheck, FindShared, ReadEvidence, ReferenceTried;
    hide DecisionApplied, DetailsAsked;
    var k := s.workers[w];
    assert WorkerIsSound(s, k);
    WorkerReplaced(rules, s, w, k);
    match k.place {
      case TryingReference(lot, classify) => ReferenceKeepsInv(rules, s, w, k, x);
      case RunningModel(lot) =>
        var check := LotCheck(k.lotId, k.fingerprint, lot.name, x.output, x.exact, x.exactReference);
        SaveKeepsInv(rules, s, k.lotId, lot.site, k.fingerprint, check);
        var (checks, checkId) := SavedCheck(s.lots, s.checks, k.lotId, lot.site, k.fingerprint, check);
        MovedKeepsInv(rules, s.(checks := checks), w, Marking(checkId));
      case Marking(checkId) =>
        if k.lotId in s.lots && PendingFor(s.lots[k.lotId], k.fingerprint) { MarkKeepsInv(rules, s, w, checkId); }
      case Assigning(checkId, current) => DecisionKeepsInv(rules, s, w, k, x);
      case Holding(checkId, current) =>
        MovedKeepsInv(rules, s, w, FollowingUp);
        if k.lotId in s.lots && PendingFor(s.lots[k.lotId], k.fingerprint) {
          var check := CheckAt(s.checks, Some(checkId));
          var evidence := if check.Some? then ReadEvidence(rules, current, check.value) else None;
          HoldKeepsInv(rules, s, k.lotId, evidence);
          MovedKeepsInv(rules, WithLot(s, k.lotId, Some(HeldLot(s.lots[k.lotId], evidence))), w, FollowingUp);
        }
      case FollowingUp =>
        DetailsAskedKeepsInv(rules, s, k, x.now);
        WorkerReplaced(rules, DetailsAsked(rules, s, k, x.now), w, k);
    }
  }

  lemma WorkKeepsInv(rules: Rules, s: State, w: nat, x: Answers)
    requires Inv(rules, s) && w in s.workers
    ensures Inv(rules, WorkerStep(rules, s, w, x)) && Grows(s, WorkerStep(rules, s, w, x))
  {
    hide Inv, Grows, WorkerStep;
    if IsSearching(s.workers[w].place) {
      SearchingKeepsInv(rules, s, w, x);
    } else if IsWaiting(s.workers[w].place) {
      WaitingKeepsInv(rules, s, w, x);
    } else {
      ActingKeepsInv(rules, s, w, x);
    }
  }

  lemma SharedKeepsInv(rules: Rules, s: State, w: nat, site: nat)
    requires Inv(rules, s) && w in s.workers && s.workers[w].lotId in s.lots
    requires site == s.lots[s.workers[w].lotId].site
    ensures var k := s.workers[w];
            var shared := FindShared(s.lots, s.checks, k.lotId, site, k.fingerprint);
            shared.Found? ==>
              SavedFor(s.lots, s.checks, shared.checkId, site, k.fingerprint)
              && Inv(rules, Moved(s, w, Marking(shared.checkId))) && Grows(s, Moved(s, w, Marking(shared.checkId)))
  {
    hide LotsAreSound;
    var k := s.workers[w];
    TwinCheckIsOldest(s.lots, s.checks, k.lotId, site, k.fingerprint, 0);
    var shared := FindShared(s.lots, s.checks, k.lotId, site, k.fingerprint);
    if shared.Found? { MovedKeepsInv(rules, s, w, Marking(shared.checkId)); }
  }

  lemma NextKeepsInv(rules: Rules, s: State, step: Step)
    requires Inv(rules, s)
    ensures Inv(rules, Next(rules, s, step)) && Grows(s, Next(rules, s, step))
  {
    match step {
      case StartWorker(w, lotId, fingerprint, classify) => StartKeepsInv(rules, s, w, lotId, fingerprint, classify);
      case Work(w, answers) => if w in s.workers { WorkKeepsInv(rules, s, w, answers); }
      case _ => EnvironmentKeepsInv(rules, s, step);
    }
  }

  // ---------- Runs ----------

  function Run(rules: Rules, steps: seq<Step>): State {
    if steps == [] then INITIAL else Next(rules, Run(rules, steps[..|steps| - 1]), steps[|steps| - 1])
  }

  /** In every reachable state: a lot is matched exactly when it has a Bottle, is available only with one,
      carries the fingerprint of its own identity, and its saved check belongs to that identity. */
  lemma {:induction false} RunKeepsInv(rules: Rules, steps: seq<Step>)
    ensures Inv(rules, Run(rules, steps))
  {
    hide Next;
    if steps != [] {
      RunKeepsInv(rules, steps[..|steps| - 1]);
      NextKeepsInv(rules, Run(rules, steps[..|steps| - 1]), steps[|steps| - 1]);
    }
  }

  predicate IsSettled(status: MatchStatus) {
    status == Matched || status == Ignored
  }

  /** A moderator ignores or reopens this very lot and is not refused, or a timely observation of it gives it
      another identity. */
  predicate Unsettles(rules: Rules, s: State, step: Step, lotId: nat)
    requires lotId in s.lots
  {
    var lot := s.lots[lotId];
    match step
    case ModeratorIgnores(id, fingerprint, bottleId, checkId, userId, now) =>
      id == lotId && IgnoredLot(lot, fingerprint, bottleId, checkId, userId, now).Some?
    case ModeratorReopens(id, fingerprint, checkId) => id == lotId && ReopenedLot(lot, fingerprint, checkId).Some?
    case Observe(id, site, o, now) =>
      id == lotId && lot.site == site && Timely(o.observedAt, now)
      && ObservedLot(rules, site, Some(lot), o, now).fingerprint != lot.fingerprint
    case _ => false
  }

  /** A step changes the status of a matched or ignored lot exactly when a moderator ignores or reopens that lot, or
      an observation changes its identity. */
  lemma SettledStatusIsKept(rules: Rules, s: State, step: Step, lotId: nat)
    requires Inv(rules, s) && lotId in s.lots && IsSettled(s.lots[lotId].status)
    ensures var next := Next(rules, s, step);
            && lotId in next.lots
            && (next.lots[lotId].status != s.lots[lotId].status <==> Unsettles(rules, s, step, lotId))
  {
    hide WorkerStep, EvidenceSuffices, CatalogAgrees, ReadEvidence, IsLive, IdentityFingerprint, KnownFacts;
    hide ChecksAreKeyed, WorkersAreSound;
    assert Sound(rules, s.checks, s.lots[lotId]);
    if step.Work? && step.worker in s.workers {
      WorkKeepsSettled(rules, s, step.worker, step.answers, lotId);
    }
  }

  lemma WorkKeepsSettled(rules: Rules, s: State, w: nat, x: Answers, lotId: nat)
    requires w in s.workers && lotId in s.lots && SoundLot(rules, s.lots[lotId]) && IsSettled(s.lots[lotId].status)
    ensures lotId in WorkerStep(rules, s, w, x).lots && WorkerStep(rules, s, w, x).lots[lotId] == s.lots[lotId]
  {
    hide FindShared, SavedCheck, AssessMatch, ReadEvidence, EvidenceSuffices, CatalogAgrees;
  }

  ghost predicate UnsettledAt(rules: Rules, steps: seq<Step>, lotId: nat, j: nat) {
    && j < |steps| && lotId in Run(rules, steps[..j]).lots
    && Unsettles(rules, Run(rules, steps[..j]), steps[j], lotId)
  }

  function StatusAt(rules: Rules, steps: seq<Step>, k: nat, lotId: nat): Option<MatchStatus>
    requires k <= |steps|
  {
    var lots := Run(rules, steps[..k]).lots;
    if lotId in lots then Some(lots[lotId].status) else None
  }

  lemma StatusChangesExactly(rules: Rules, steps: seq<Step>, j: nat, lotId: nat)
    requires j < |steps| && StatusAt(rules, steps, j, lotId).Some? && IsSettled(StatusAt(rules, steps, j, lotId).value)
    ensures StatusAt(rules, steps, j + 1, lotId) == StatusAt(rules, steps, j, lotId) <==>
            !UnsettledAt(rules, steps, lotId, j)
  {
    hide Next, Inv, Unsettles;
    assert steps[..j + 1][..j] == steps[..j];
    RunKeepsInv(rules, steps[..j]);
    SettledStatusIsKept(rules, Run(rules, steps[..j]), steps[j], lotId);
  }

  lemma {:induction false} KeptWithoutUnsettling(rules: Rules, steps: seq<Step>, i: nat, k: nat, lotId: nat)
    requires i <= k <= |steps|
    requires StatusAt(rules, steps, i, lotId).Some? && IsSettled(StatusAt(rules, steps, i, lotId).value)
    requires forall j: nat :: i <= j < k ==> !UnsettledAt(rules, steps, lotId, j)
    ensures StatusAt(rules, steps, k, lotId) == StatusAt(rules, steps, i, lotId)
  {
    hide StatusAt, UnsettledAt;
    if i < k {
      KeptWithoutUnsettling(rules, steps, i, k - 1, lotId);
      StatusChangesExactly(rules, steps, k - 1, lotId);
    }
  }

  /** Over any run, a lot once matched or ignored has that status in every later state exactly while none of the
      steps is such a step on this lot. */
  lemma SettledUntilUnsettled(rules: Rules, steps: seq<Step>, i: nat, lotId: nat)
    requires i <= |steps| && StatusAt(rules, steps, i, lotId).Some?
    requires IsSettled(StatusAt(rules, steps, i, lotId).value)
    ensures (forall k: nat :: i <= k <= |steps| ==>
              StatusAt(rules, steps, k, lotId) == StatusAt(rules, steps, i, lotId))
            <==> (forall j: nat :: i <= j < |steps| ==> !UnsettledAt(rules, steps, lotId, j))
  {
    hide StatusAt, UnsettledAt;
    if forall j: nat :: i <= j < |steps| ==> !UnsettledAt(rules, steps, lotId, j) {
      forall k: nat | i <= k <= |steps| { KeptWithoutUnsettling(rules, steps, i, k, lotId); }
    } else {
      var j: nat :| i <= j < |steps| && UnsettledAt(rules, steps, lotId, j);
      if StatusAt(rules, steps, j, lotId) == StatusAt(rules, steps, i, lotId) {
        StatusChangesExactly(rules, steps, j, lotId);
        assert StatusAt(rules, steps, j + 1, lotId) != StatusAt(rules, steps, i, lotId);
      }
    }
  }

  // ---------- Moderators ----------

  predicate IgnoresOrReopens(step: Step) {
    step.ModeratorIgnores? || step.ModeratorReopens?
  }

  /** A request to ignore or reopen a lot that arrives twice takes effect once. */
  lemma RepeatedModerationChangesNothing(rules: Rules, s: State, step: Step)
    requires IgnoresOrReopens(step)
    ensures Next(rules, Next(rules, s, step), step) == Next(rules, s, step)
  {
    hide WorkerStep, AssignedLot, DetailedLot, ObservedLot;
    var next := Next(rules, s, step);
    if step.lotId in s.lots {
      assert next == s || next == WithLot(s, step.lotId, Some(next.lots[step.lotId]));
    }
  }

  /** A moderator who ignores any lot as it stands and reopens it gets it back for review, less its match. */
  lemma ReopeningUndoesIgnoring(rules: Rules, s: State, lotId: nat, userId: nat, now: int)
    requires lotId in s.lots && s.lots[lotId].status != Ignored
    ensures var lot := s.lots[lotId];
            var ignored :=
              Next(rules, s, ModeratorIgnores(lotId, lot.fingerprint, lot.bottleId, lot.checkId, userId, now));
            var reopened := Next(rules, ignored, ModeratorReopens(lotId, lot.fingerprint, lot.checkId));
            reopened == s.(lots := s.lots[lotId := lot.(
              status := Review, bottleId := None, referenceId := None, matchedById := None, matchedAt := None,
              availableSince := None)])
  {
    hide WorkerStep, AssignedLot, DetailedLot, ObservedLot;
  }

  // ---------- What a worker's last steps decide ----------

  /** The Bottle a classified check points to: the one it names, or the one created for it. */
  function Target(check: Check, x: Answers): nat {
    if check.output.Classified? && check.output.decision.MatchBottle? then check.output.decision.bottleId
    else x.createdBottleId
  }

  /** The check's decision may be applied to the lot without a moderator. */
  ghost predicate DecisionIsSafe(rules: Rules, lot: Lot, check: Check, x: Answers) {
    && CheckSpeaksFor(rules, lot, check) && check.output.Classified? && !check.output.decision.NoMatch?
    && rules.eligible(lot, check) && x.bottleActive && !rules.conflicts(lot.facts, Target(check, x))
    && (check.exact ==>
          check.exactReference.Some? && x.reference.Some? && x.reference.value.bottleId == Target(check, x)
          && !x.reference.value.ignored)
  }

  lemma AssessedExactly(rules: Rules, lot: Lot, check: Check)
    ensures var assessment := AssessMatch(rules, lot, check);
            && (assessment.Some? <==>
                  CheckSpeaksFor(rules, lot, check) && check.output.Classified? && !check.output.decision.NoMatch?
                  && (check.exact ==> check.exactReference.Some?))
            && (assessment.Some? ==>
                  && (assessment.value.eligible <==> rules.eligible(lot, check))
                  && assessment.value.referenceName == (if check.exact then check.exactReference else None)
                  && (assessment.value.bottleId.Some? <==> check.output.decision.MatchBottle?)
                  && (check.output.decision.MatchBottle? ==>
                        assessment.value.bottleId == Some(check.output.decision.bottleId)))
  {}

  lemma LotIsSound(rules: Rules, s: State, lotId: nat)
    requires Inv(rules, s) && lotId in s.lots
    ensures Sound(rules, s.checks, s.lots[lotId])
  {}

  /** A worker's decision matches a lot only when its check is eligible for automation, for the lot as the worker
      remembers it and for the lot as it stands, and only to the Bottle the check points to. */
  lemma MatchedOnlyWhenEligible(rules: Rules, s: State, w: nat, x: Answers)
    requires Inv(rules, s) && w in s.workers && s.workers[w].place.Assigning?
    ensures var k := s.workers[w];
            var check := CheckAt(s.checks, Some(k.place.checkId));
            var next := Next(rules, s, Work(w, x));
            next.lots == s.lots
            || (check.Some? && k.lotId in s.lots && k.lotId in next.lots
                && DecisionIsSafe(rules, s.lots[k.lotId], check.value, x)
                && rules.eligible(k.place.current, check.value)
                && next.lots == s.lots[k.lotId := next.lots[k.lotId]]
                && next.lots[k.lotId].status == Matched
                && next.lots[k.lotId].bottleId == Some(Target(check.value, x)))
  {
    hide LotsAreSound, ChecksAreKeyed, AssignedLot, AssessMatch, DecisionApplied;
    var k := s.workers[w];
    assert WorkerIsSound(s, k);
    AssessedExactly(rules, k.place.current, s.checks[k.place.checkId]);
    DecisionFits(rules, s, w, x, s.checks[k.place.checkId]);
  }

  /** The assignment a worker asks for when its check is eligible. */
  function AskedFor(k: Worker, check: Check, x: Answers): Assignment
    requires k.place.Assigning? && check.output.Classified?
  {
    Assignment(Target(check, x), k.fingerprint, None, None, Some(k.place.checkId),
               if check.exact then check.exactReference else None, true, !check.output.decision.MatchBottle?, Omitted)
  }

  /** The decision is applied exactly when the check is eligible and the assignment fits the lot as it stands. */
  lemma DecisionFits(rules: Rules, s: State, w: nat, x: Answers, check: Check)
    requires Inv(rules, s) && w in s.workers && s.workers[w].place.Assigning? && s.workers[w].lotId in s.lots
    requires CheckAt(s.checks, Some(s.workers[w].place.checkId)) == Some(check)
    ensures var k := s.workers[w];
            var lot := s.lots[k.lotId];
            var next := DecisionApplied(rules, s, w, k, x);
            var assessment := AssessMatch(rules, k.place.current, check);
            if assessment.Some? && assessment.value.eligible
               && Fits(rules, s.checks, lot, AskedFor(k, check, x), Catalog(x.bottleActive, x.reference))
            then next.lots == s.lots[k.lotId := next.lots[k.lotId]] && next.lots[k.lotId].status == Matched
                 && next.lots[k.lotId].bottleId == Some(Target(check, x)) && w !in next.workers
            else next == Moved(s, w, Holding(k.place.checkId, k.place.current))
  {
    hide LotsAreSound, ChecksAreKeyed, AssignedLot, AssessMatch, Fits;
    var k := s.workers[w];
    AssessedExactly(rules, k.place.current, check);
    LotIsSound(rules, s, k.lotId);
    if AssessMatch(rules, k.place.current, check).Some? {
      AssignmentIsFollowed(rules, s.checks, s.lots[k.lotId], AskedFor(k, check, x),
                           Catalog(x.bottleActive, x.reference), x.now);
    }
  }

  /** While the lot is as the worker left it when it marked its check, the decision is applied exactly when it is
      safe, and otherwise the lot is left for the last update to hold. */
  lemma SafeDecisionsAreApplied(rules: Rules, s: State, w: nat, x: Answers)
    requires Inv(rules, s) && w in s.workers && s.workers[w].place.Assigning? && s.workers[w].lotId in s.lots
    requires var k := s.workers[w];
             s.lots[k.lotId] == k.place.current && PendingFor(k.place.current, k.fingerprint)
             && k.place.current.checkId == Some(k.place.checkId)
    ensures var k := s.workers[w];
            var next := Next(rules, s, Work(w, x));
            && k.place.checkId < |s.checks|
            && (if DecisionIsSafe(rules, k.place.current, s.checks[k.place.checkId], x) then
                  && next.lots[k.lotId].bottleId == Some(Target(s.checks[k.place.checkId], x))
                  && next.lots[k.lotId].status == Matched && w !in next.workers
                else
                  next.lots == s.lots && w in next.workers
                  && next.workers[w].place == Holding(k.place.checkId, k.place.current))
  {
    hide LotsAreSound, ChecksAreKeyed, AssignedLot, AssessMatch, DecisionApplied;
    var k := s.workers[w];
    assert WorkerIsSound(s, k);
    LotIsSound(rules, s, k.lotId);
    var check := s.checks[k.place.checkId];
    AssessedExactly(rules, k.place.current, check);
    DecisionFits(rules, s, w, x, check);
  }

  /** A worker reuses an accepted reference exactly when neither the facts it remembers nor those of the lot as it
      stands contradict the Bottle, and the lot still waits for a Bottle under the same identity. */
  lemma ReferenceIsReusedExactly(rules: Rules, s: State, w: nat, x: Answers)
    requires Inv(rules, s) && w in s.workers && s.workers[w].place.TryingReference? && s.workers[w].lotId in s.lots
    ensures var k := s.workers[w];
            var lot := s.lots[k.lotId];
            var next := Next(rules, s, Work(w, x));
            if x.reference.Some? && !rules.conflicts(k.place.lot.facts, x.reference.value.bottleId)
               && lot.fingerprint == k.fingerprint && lot.bottleId.None? && lot.status != Ignored
               && x.bottleActive && !x.reference.value.ignored
               && !rules.conflicts(lot.facts, x.reference.value.bottleId)
            then next.lots == s.lots[k.lotId := next.lots[k.lotId]] && w !in next.workers
                 && next.lots[k.lotId].bottleId == Some(x.reference.value.bottleId)
                 && next.lots[k.lotId].referenceId == Some(x.reference.value.id)
            else next.lots == s.lots && w in next.workers
  {
    hide LotsAreSound, ChecksAreKeyed, AssignedLot;
    var k := s.workers[w];
    LotIsSound(rules, s, k.lotId);
    if x.reference.Some? {
      var a := Assignment(x.reference.value.bottleId, k.fingerprint, None, None, None, Some(x.reference.value.name),
                          false, false, Omitted);
      AssignmentIsFollowed(rules, s.checks, s.lots[k.lotId], a, Catalog(x.bottleActive, x.reference), x.now);
    }
  }

  /** The last update holds a lot exactly while it still waits with the worker's check: a check that says the lot is
      not one bottle ignores it, and every other leaves it for review. */
  lemma HeldExactly(rules: Rules, s: State, w: nat, x: Answers)
    requires w in s.workers && s.workers[w].place.Holding? && s.workers[w].place.checkId < |s.checks|
    ensures var k := s.workers[w];
            var check := s.checks[k.place.checkId];
            var says := CheckSpeaksFor(rules, k.place.current, check) && check.output.IgnoredOutput?;
            var next := Next(rules, s, Work(w, x));
            if k.lotId in s.lots && HoldsFor(s.lots[k.lotId], k.fingerprint, k.place.checkId)
            then next.lots == s.lots[k.lotId := s.lots[k.lotId].(status := if says then Ignored else Review)]
            else next.lots == s.lots
  {}

  /** A worker that reads the lot again goes on, as far as a model run, exactly while the lot still waits for a Bottle
      under its identity; otherwise it stops. No lot or check changes. */
  lemma GoesOnWhilePending(rules: Rules, s: State, w: nat, x: Answers)
    requires w in s.workers && (s.workers[w].place.Rereading? || s.workers[w].place.RereadingForModel?)
    ensures var k := s.workers[w];
            var waits := k.lotId in s.lots && s.lots[k.lotId].fingerprint == k.fingerprint
                         && s.lots[k.lotId].status == Pending && s.lots[k.lotId].bottleId.None?;
            Next(rules, s, Work(w, x)) ==
              if !waits then s.(workers := s.workers - {w})
              else if k.place.Rereading? then
                s.(workers := s.workers[w := k.(place := FindingOwnCheck(k.place.lot, k.place.classify))])
              else s.(workers := s.workers[w := k.(place := RunningModel(s.lots[k.lotId]))])
  {}

  /** A moderator's assignment takes effect exactly when it fits the lot as it stands, on that lot only. */
  lemma ModeratorAssignsExactly(rules: Rules, s: State, step: Step)
    requires Inv(rules, s) && step.ModeratorAssigns?
    requires step.assignment.userId.Some? && !step.assignment.automatic
    ensures var next, lotId, a := Next(rules, s, step), step.lotId, step.assignment;
            if lotId in s.lots && Fits(rules, s.checks, s.lots[lotId], a, step.catalog)
            then next == s.(lots := s.lots[lotId := next.lots[lotId]])
                 && FollowsAssignment(s.lots[lotId], next.lots[lotId], a, step.catalog, step.now)
            else next == s
  {
    hide LotsAreSound, ChecksAreKeyed, AssignedLot, Fits, FollowsAssignment;
    if step.lotId in s.lots {
      LotIsSound(rules, s, step.lotId);
      AssignmentIsFollowed(rules, s.checks, s.lots[step.lotId], step.assignment, step.catalog, step.now);
    }
  }

  /** An observation is taken exactly when it is at most a minute ahead of the clock and of the site the lot is listed
      on, and then as the transaction takes it. */
  lemma ObservationsAreTakenExactly(rules: Rules, s: State, step: Step)
    requires step.Observe?
    ensures var next, id, o := Next(rules, s, step), step.lotId, step.observation;
            if o.observedAt <= step.now + 60_000 && (id in s.lots ==> s.lots[id].site == step.site)
            then id in next.lots && next == s.(lots := s.lots[id := next.lots[id]]) && next.lots[id].site == step.site
                 && FollowsObservation(if id in s.lots then Some(s.lots[id]) else None, next.lots[id], o, step.now)
            else next == s
  {
    hide ObservedLot, FollowsObservation;
    var existing := if step.lotId in s.lots then Some(s.lots[step.lotId]) else None;
    ObservationIsFollowed(rules, step.site, existing, step.observation, step.now);
    ObservedSite(rules, step.site, existing, step.observation, step.now);
  }

  // ---------- Details ----------

  /** A page read at most a minute ahead of the clock for the present request of a lot that still waits is saved. */
  lemma AwaitedReadsAreSaved(rules: Rules, s: State, step: Step)
    requires step.ReadDetails? && step.lotId in s.lots && s.lots[step.lotId].site == step.site
    requires step.details.checkedAt <= step.now + 60_000 && s.lots[step.lotId].detailsCheckedAt.None?
    requires AnswersRequest(s.lots[step.lotId], step.details) && StillWanted(s.lots[step.lotId], step.details)
    ensures var next, id := Next(rules, s, step), step.lotId;
            && id in next.lots && next == s.(lots := s.lots[id := next.lots[id]])
            && SavesPage(rules, s.lots[id], next.lots[id], step.details)
            && FollowsDetails(rules, s.lots[id], next.lots[id], step.details)
  {
    hide DetailedLot;
    DetailsAreFollowed(rules, s.lots[step.lotId], step.details);
  }

  /** A detail read that is delivered twice takes effect once. */
  lemma RepeatedReadChangesNothing(rules: Rules, s: State, step: Step)
    requires step.ReadDetails?
    ensures Next(rules, Next(rules, s, step), step) == Next(rules, s, step)
  {
    hide WorkerStep, AssignedLot, ObservedLot, IdentityFingerprint, KnownFacts;
    if step.lotId in s.lots {
      var next := Next(rules, s, step);
      assert next.lots[step.lotId := next.lots[step.lotId]] == next.lots;
      assert s.lots[step.lotId := s.lots[step.lotId]] == s.lots;
    }
  }

  /** A detail read changes nothing once the lot has another identity, URL or check than when it was asked for, has a
      Bottle, is ignored, or has been asked for again or answered; nor does one of another site or from the future. */
  lemma OutdatedReadChangesNothing(rules: Rules, s: State, step: Step)
    requires step.ReadDetails? && step.lotId in s.lots
    requires var lot, d := s.lots[step.lotId], step.details;
             || lot.fingerprint != d.fingerprint || lot.url != d.url || lot.checkId != d.expectedCheckId
             || lot.bottleId.Some? || lot.status == Matched || lot.status == Ignored
             || lot.detailsRequestedAt != Some(d.requestedAt) || lot.detailsCheckedAt.Some?
             || d.checkedAt < d.requestedAt || lot.site != step.site || d.checkedAt > step.now + 60_000
    ensures Next(rules, s, step) == s
  {
    hide IdentityFingerprint, KnownFacts;
    assert s.lots[step.lotId := s.lots[step.lotId]] == s.lots;
  }

  /** A last step asks for the details of a lot exactly while it waits without a Bottle under the worker's identity,
      has none yet and its site has lot pages; the first request time stays. */
  lemma DetailsAreAskedExactly(rules: Rules, s: State, w: nat, x: Answers)
    requires w in s.workers && (s.workers[w].place.FollowingUp? || s.workers[w].place.RequestingDetails?)
    requires s.workers[w].lotId in s.lots
    ensures var k := s.workers[w];
            var lot := s.lots[k.lotId];
            var next := Next(rules, s, Work(w, x));
            if lot.fingerprint == k.fingerprint && lot.status != Matched && lot.status != Ignored
               && lot.bottleId.None? && lot.detailsCheckedAt.None? && rules.readsDetails(lot.site)
            then && next.lots == s.lots[k.lotId := next.lots[k.lotId]] && w !in next.workers
                 && next.lots[k.lotId] == lot.(detailsRequestedAt := next.lots[k.lotId].detailsRequestedAt)
                 && next.lots[k.lotId].detailsRequestedAt ==
                      if lot.detailsRequestedAt.Some? then lot.detailsRequestedAt else Some(x.now)
            else next.lots == s.lots
  {}

  // ---------- Two workers on one lot ----------

  /** A worker that has marked its check settles the lot only while that check is still the marked one. */
  lemma SettledByTheMarkedCheck(rules: Rules, s: State, w: nat, x: Answers)
    requires w in s.workers && (s.workers[w].place.Assigning? || s.workers[w].place.Holding?)
    ensures var k := s.workers[w];
            var next := WorkerStep(rules, s, w, x);
            next.lots == s.lots
            || (k.lotId in s.lots && k.lotId in next.lots
                && s.lots[k.lotId].checkId == HeldCheck(k.place) && next.lots[k.lotId].checkId == HeldCheck(k.place))
  {
    hide FindShared, SavedCheck, AssessMatch, ReadEvidence, EvidenceSuffices, CatalogAgrees;
  }

  /** The state after one worker marks its check on a lot that still waits. */
  lemma MarkingMoves(rules: Rules, s: State, w: nat, x: Answers)
    requires w in s.workers && s.workers[w].place.Marking? && s.workers[w].lotId in s.lots
    requires PendingFor(s.lots[s.workers[w].lotId], s.workers[w].fingerprint)
    ensures var k := s.workers[w];
            var current := MarkedLot(s.lots[k.lotId], k.place.checkId);
            Next(rules, s, Work(w, x)) ==
              s.(lots := s.lots[k.lotId := current],
                 workers := s.workers[w := k.(place := Assigning(k.place.checkId, current))])
  {
    hide FindShared, SavedCheck, DecisionApplied, ReferenceTried, ReadEvidence;
  }

  /** When two workers mark one lot in turn, both later steps of the first leave every lot as it is: only the second
      one's check can settle the lot. */
  lemma LaterMarkIsHeld(rules: Rules, s: State, w: nat, v: nat, x: Answers, y: Answers, z: Answers)
    requires w in s.workers && v in s.workers && w != v
    requires s.workers[w].place.Marking? && s.workers[v].place.Marking?
    requires s.workers[w].place.checkId != s.workers[v].place.checkId
    requires s.workers[v].lotId == s.workers[w].lotId && s.workers[v].fingerprint == s.workers[w].fingerprint
    requires s.workers[w].lotId in s.lots && PendingFor(s.lots[s.workers[w].lotId], s.workers[w].fingerprint)
    ensures var marked := Next(rules, Next(rules, s, Work(w, x)), Work(v, x));
            var after := Next(rules, Next(rules, marked, Work(w, y)), Work(w, z));
            && marked.lots[s.workers[w].lotId].checkId == Some(s.workers[v].place.checkId)
            && after.lots == marked.lots && after.checks == marked.checks
            && v in after.workers && after.workers[v] == marked.workers[v] && after.workers[v].place.Assigning?
            && w in after.workers && after.workers[w].place == FollowingUp
  {
    hide Next, WorkerStep;
    var k := s.workers[w];
    MarkingMoves(rules, s, w, x);
    var one := Next(rules, s, Work(w, x));
    MarkingMoves(rules, one, v, x);
    var marked := Next(rules, one, Work(v, x));
    AnotherMarkRefuses(rules, marked, w, y);
    var refused := Next(rules, marked, Work(w, y));
    AnotherMarkRefuses(rules, refused, w, z);
  }

  lemma AnotherMarkRefuses(rules: Rules, s: State, w: nat, x: Answers)
    requires w in s.workers && (s.workers[w].place.Assigning? || s.workers[w].place.Holding?)
    requires s.workers[w].lotId in s.lots && s.lots[s.workers[w].lotId].checkId != HeldCheck(s.workers[w].place)
    ensures var k := s.workers[w];
            var place := if k.place.Assigning? then Holding(k.place.checkId, k.place.current) else FollowingUp;
            Next(rules, s, Work(w, x)) == s.(workers := s.workers[w := k.(place := place)])
  {
    hide FindShared, SavedCheck, AssessMatch, ReadEvidence, EvidenceSuffices, CatalogAgrees;
  }
}
