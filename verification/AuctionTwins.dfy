/** Identical lots of one site share one check: at most one is ever saved for their identity, every worker
    that applies a check applies that one, and the lot that must classify is never told to wait. */
module AuctionTwins {
  import opened Wrappers
  import opened AuctionRows
  import opened AuctionTables
  import opened AuctionProtocol

  ghost predicate InGroup(s: State, site: nat, fingerprint: Fingerprint, lotId: nat) {
    lotId in s.lots && s.lots[lotId].site == site && s.lots[lotId].fingerprint == fingerprint
  }

  ghost predicate GroupKept(s: State, next: State, site: nat, fingerprint: Fingerprint) {
    forall id :: InGroup(s, site, fingerprint, id) ==> InGroup(next, site, fingerprint, id)
  }

  /** Along the run, a lot of the site that takes this identity keeps it. */
  ghost predicate StaysTogether(rules: Rules, steps: seq<Step>, site: nat, fingerprint: Fingerprint) {
    steps == []
    || (var front := steps[..|steps| - 1];
        StaysTogether(rules, front, site, fingerprint)
        && GroupKept(Run(rules, front), Run(rules, steps), site, fingerprint))
  }

  // ---------- One check per identity ----------

  /** Checks and workers of this identity belong to lots that still have it, and at most one check does. */
  ghost predicate OneCheck(s: State, site: nat, fingerprint: Fingerprint) {
    && (forall i: nat :: SavedFor(s.lots, s.checks, i, site, fingerprint) ==>
          InGroup(s, site, fingerprint, s.checks[i].key.value.lotId))
    && (forall i: nat, j: nat ::
          SavedFor(s.lots, s.checks, i, site, fingerprint) && SavedFor(s.lots, s.checks, j, site, fingerprint) ==>
            i == j)
    && (forall w | w in s.workers && s.workers[w].fingerprint == fingerprint && s.workers[w].lotId in s.lots ::
          s.lots[s.workers[w].lotId].site == site ==> InGroup(s, site, fingerprint, s.workers[w].lotId))
  }

  /** A step leaves every worker at its lot and identity; a started worker has its lot's identity. */
  lemma WorkersKeepTheirLot(rules: Rules, s: State, step: Step, w: nat)
    requires w in Next(rules, s, step).workers
    ensures var k := Next(rules, s, step).workers[w];
            (w in s.workers && k.lotId == s.workers[w].lotId && k.fingerprint == s.workers[w].fingerprint)
            || (k.lotId in s.lots && s.lots[k.lotId].fingerprint == k.fingerprint)
  {
    hide ObservedLot, DetailedLot, AssignedLot, IgnoredLot, ReopenedLot, WorkerStep;
    if step.Work? && step.worker in s.workers { WorkerKeepsItsLot(rules, s, step.worker, step.answers, w); }
  }

  lemma WorkerKeepsItsLot(rules: Rules, s: State, v: nat, x: Answers, w: nat)
    requires v in s.workers && w in WorkerStep(rules, s, v, x).workers
    ensures w in s.workers
    ensures var k := WorkerStep(rules, s, v, x).workers[w];
            k.lotId == s.workers[w].lotId && k.fingerprint == s.workers[w].fingerprint
  {
    hide FindShared, SavedCheck, AssessMatch, ReadEvidence, Assigned, DetailsWanted, HeldLot;
  }

  /** The worker whose model run a step saves. */
  ghost predicate SavesModelRun(s: State, step: Step) {
    step.Work? && step.worker in s.workers && s.workers[step.worker].place.RunningModel?
  }

  /** Only a model run saves a check with a key. */
  lemma ChecksComeFromModelRuns(rules: Rules, s: State, step: Step)
    requires !SavesModelRun(s, step)
    ensures var checks := Next(rules, s, step).checks;
            checks == s.checks || (exists check: Check :: check.key.None? && checks == s.checks + [check])
  {
    hide ObservedLot, DetailedLot, AssignedLot, IgnoredLot, ReopenedLot, WorkerStep;
    if step.Work? && step.worker in s.workers { OtherWorkSavesNothing(rules, s, step.worker, step.answers); }
  }

  lemma OtherWorkSavesNothing(rules: Rules, s: State, w: nat, x: Answers)
    requires w in s.workers && !s.workers[w].place.RunningModel?
    ensures WorkerStep(rules, s, w, x).checks == s.checks
  {
    hide FindShared, SavedCheck, AssessMatch, ReadEvidence, Assigned, DetailsWanted, HeldLot;
  }

  /** A check saved after the step was saved before it, or by this step's model run for its own lot. */
  lemma SavedBeforeOrByModelRun(rules: Rules, s: State, step: Step, i: nat, site: nat, fingerprint: Fingerprint)
    requires Inv(rules, s)
    requires SavedFor(Next(rules, s, step).lots, Next(rules, s, step).checks, i, site, fingerprint)
    ensures SavedFor(s.lots, s.checks, i, site, fingerprint)
            || (SavesModelRun(s, step) && i == |s.checks|
                && var k := s.workers[step.worker];
                   var saved := SavedCheck(s.lots, s.checks, k.lotId, k.place.lot.site, k.fingerprint,
                     LotCheck(k.lotId, k.fingerprint, k.place.lot.name, step.answers.output, step.answers.exact,
                              step.answers.exactReference));
                   Next(rules, s, step).checks == saved.0
                   && |saved.0| == |s.checks| + 1
                   && saved.0[i].key == Some(CheckKey(k.lotId, k.fingerprint)))
  {
    hide Inv, Next;
    NextKeepsInv(rules, s, step);
    KeyedChecksAreFromLots(rules, s);
    if !SavesModelRun(s, step) {
      ChecksComeFromModelRuns(rules, s, step);
    } else {
      ModelRunSaves(rules, s, step);
    }
  }

  lemma KeyedChecksAreFromLots(rules: Rules, s: State)
    requires Inv(rules, s)
    ensures ChecksAreKeyed(s.lots, s.checks)
  {}

  lemma ModelRunSaves(rules: Rules, s: State, step: Step)
    requires SavesModelRun(s, step)
    ensures var k := s.workers[step.worker];
            Next(rules, s, step).lots == s.lots
            && Next(rules, s, step).checks ==
               SavedCheck(s.lots, s.checks, k.lotId, k.place.lot.site, k.fingerprint,
                 LotCheck(k.lotId, k.fingerprint, k.place.lot.name, step.answers.output, step.answers.exact,
                          step.answers.exactReference)).0
  {
    hide SavedCheck;
  }

  /** A model run adds a check only where the identity had none. */
  lemma AddedCheckIsFirst(rules: Rules, s: State, lotId: nat, site: nat, fingerprint: Fingerprint, check: Check, j: nat)
    requires OneCheck(s, site, fingerprint)
    requires |SavedCheck(s.lots, s.checks, lotId, site, fingerprint, check).0| > |s.checks|
    ensures !SavedFor(s.lots, s.checks, j, site, fingerprint)
  {
    TwinCheckIsOldest(s.lots, s.checks, lotId, site, fingerprint, 0);
    CheckWithKeyFinds(s.checks, CheckKey(lotId, fingerprint), 0);
    if SavedFor(s.lots, s.checks, j, site, fingerprint) {
      var owner := s.checks[j].key.value.lotId;
      if owner != lotId { assert IsTwinCheck(s.lots, lotId, site, fingerprint, s.checks[j]); }
    }
  }

  lemma NextKeepsOneCheck(rules: Rules, s: State, step: Step, site: nat, fingerprint: Fingerprint)
    requires Inv(rules, s) && OneCheck(s, site, fingerprint)
    requires GroupKept(s, Next(rules, s, step), site, fingerprint)
    ensures OneCheck(Next(rules, s, step), site, fingerprint)
  {
    hide Inv, Next;
    var next := Next(rules, s, step);
    NextKeepsInv(rules, s, step);
    WorkersHaveLots(rules, s);
    forall i: nat | SavedFor(next.lots, next.checks, i, site, fingerprint)
      ensures InGroup(next, site, fingerprint, next.checks[i].key.value.lotId)
    {
      SavedBeforeOrByModelRun(rules, s, step, i, site, fingerprint);
      if !SavedFor(s.lots, s.checks, i, site, fingerprint) {
        assert InGroup(s, site, fingerprint, s.workers[step.worker].lotId);
      }
    }
    forall i: nat, j: nat | SavedFor(next.lots, next.checks, i, site, fingerprint)
                            && SavedFor(next.lots, next.checks, j, site, fingerprint)
      ensures i == j {
      SavedBeforeOrByModelRun(rules, s, step, i, site, fingerprint);
      SavedBeforeOrByModelRun(rules, s, step, j, site, fingerprint);
      if SavesModelRun(s, step) && (i == |s.checks| || j == |s.checks|) {
        var k := s.workers[step.worker];
        var check := LotCheck(k.lotId, k.fingerprint, k.place.lot.name, step.answers.output, step.answers.exact,
                              step.answers.exactReference);
        assert k.place.lot.site == s.lots[k.lotId].site;
        AddedCheckIsFirst(rules, s, k.lotId, site, fingerprint, check, if i == |s.checks| then j else i);
      }
    }
    forall w | w in next.workers && next.workers[w].fingerprint == fingerprint && next.workers[w].lotId in next.lots
               && next.lots[next.workers[w].lotId].site == site
      ensures InGroup(next, site, fingerprint, next.workers[w].lotId)
    {
      WorkersKeepTheirLot(rules, s, step, w);
      if w in s.workers { assert WorkerIsSound(s, s.workers[w]); }
      assert InGroup(s, site, fingerprint, next.workers[w].lotId);
    }
  }

  lemma WorkersHaveLots(rules: Rules, s: State)
    requires Inv(rules, s)
    ensures WorkersAreSound(s)
  {}

  /** While identical lots stay together, at most one check is ever saved for them. */
  lemma {:induction false} RunKeepsOneCheck(rules: Rules, steps: seq<Step>, site: nat, fingerprint: Fingerprint)
    requires StaysTogether(rules, steps, site, fingerprint)
    ensures OneCheck(Run(rules, steps), site, fingerprint)
  {
    hide Next;
    if steps != [] {
      var front := steps[..|steps| - 1];
      RunKeepsOneCheck(rules, front, site, fingerprint);
      RunKeepsInv(rules, front);
      NextKeepsOneCheck(rules, Run(rules, front), steps[|steps| - 1], site, fingerprint);
    }
  }

  /** A worker for a lot of the site and identity has a check in hand: it applies this one. */
  ghost predicate AppliesCheck(s: State, site: nat, fingerprint: Fingerprint, w: nat) {
    && w in s.workers && s.workers[w].fingerprint == fingerprint && HeldCheck(s.workers[w].place).Some?
    && s.workers[w].lotId in s.lots && s.lots[s.workers[w].lotId].site == site
  }

  lemma {:induction false} RunGrows(rules: Rules, steps: seq<Step>, i: nat)
    requires i <= |steps|
    ensures Grows(Run(rules, steps[..i]), Run(rules, steps))
  {
    hide Next, Inv;
    if i == |steps| {
      assert steps[..i] == steps;
    } else {
      var front := steps[..|steps| - 1];
      assert front[..i] == steps[..i];
      RunGrows(rules, front, i);
      RunKeepsInv(rules, front);
      NextKeepsInv(rules, Run(rules, front), steps[|steps| - 1]);
    }
  }

  lemma AppliedCheckStaysSaved(rules: Rules, steps: seq<Step>, i: nat, site: nat, fingerprint: Fingerprint, w: nat)
    requires i <= |steps| && AppliesCheck(Run(rules, steps[..i]), site, fingerprint, w)
    ensures var s := Run(rules, steps);
            SavedFor(s.lots, s.checks, HeldCheck(Run(rules, steps[..i]).workers[w].place).value, site, fingerprint)
  {
    hide Run, LotsAreSound, ChecksAreKeyed;
    RunKeepsInv(rules, steps[..i]);
    RunGrows(rules, steps, i);
    var s := Run(rules, steps[..i]);
    assert WorkerIsSound(s, s.workers[w]);
  }

  /** Whenever in a run two workers of the identity apply a check, at the same moment or one long after the other,
      it is the same check. */
  lemma TwinsApplyOneCheck(rules: Rules, steps: seq<Step>, site: nat, fingerprint: Fingerprint,
      i: nat, w: nat, j: nat, v: nat)
    requires StaysTogether(rules, steps, site, fingerprint) && i <= |steps| && j <= |steps|
    requires AppliesCheck(Run(rules, steps[..i]), site, fingerprint, w)
    requires AppliesCheck(Run(rules, steps[..j]), site, fingerprint, v)
    ensures HeldCheck(Run(rules, steps[..i]).workers[w].place) == HeldCheck(Run(rules, steps[..j]).workers[v].place)
  {
    hide Run, SavedFor, StaysTogether;
    AppliedCheckStaysSaved(rules, steps, i, site, fingerprint, w);
    AppliedCheckStaysSaved(rules, steps, j, site, fingerprint, v);
    RunKeepsOneCheck(rules, steps, site, fingerprint);
  }

  // ---------- Someone can always go on ----------

  ghost predicate IsPendingTwin(s: State, site: nat, fingerprint: Fingerprint, lotId: nat) {
    InGroup(s, site, fingerprint, lotId) && s.lots[lotId].status == Pending
  }

  /** "Wait" is the answer exactly while no other lot of the identity has a check and a smaller one is pending. */
  lemma WaitExactly(s: State, site: nat, fingerprint: Fingerprint, lotId: nat)
    ensures FindShared(s.lots, s.checks, lotId, site, fingerprint) == Wait <==>
            && (forall i :: 0 <= i < |s.checks| ==> !IsTwinCheck(s.lots, lotId, site, fingerprint, s.checks[i]))
            && exists twin: nat :: twin < lotId && IsPendingTwin(s, site, fingerprint, twin)
  {
    TwinCheckIsOldest(s.lots, s.checks, lotId, site, fingerprint, 0);
    if FindShared(s.lots, s.checks, lotId, site, fingerprint) == Wait {
      var twin :| twin in s.lots && IsTwin(s.lots, lotId, site, fingerprint, twin)
                  && twin < lotId && s.lots[twin].status == Pending;
      assert IsPendingTwin(s, site, fingerprint, twin);
    }
    if twin: nat :| twin < lotId && IsPendingTwin(s, site, fingerprint, twin) {
      assert IsTwin(s.lots, lotId, site, fingerprint, twin);
    }
  }

  lemma {:induction false} SmallestPendingTwin(s: State, site: nat, fingerprint: Fingerprint, bound: nat)
      returns (first: nat)
    requires exists twin: nat :: twin < bound && IsPendingTwin(s, site, fingerprint, twin)
    ensures first < bound && IsPendingTwin(s, site, fingerprint, first)
    ensures forall twin :: IsPendingTwin(s, site, fingerprint, twin) ==> first <= twin
  {
    first :| first < bound && IsPendingTwin(s, site, fingerprint, first);
    if exists twin: nat :: twin < first && IsPendingTwin(s, site, fingerprint, twin) {
      first := SmallestPendingTwin(s, site, fingerprint, first);
    }
  }

  /** Whenever some lot is told to wait, a smaller pending lot of the identity is not. */
  lemma SomePendingTwinGoesOn(s: State, site: nat, fingerprint: Fingerprint, lotId: nat) returns (first: nat)
    requires FindShared(s.lots, s.checks, lotId, site, fingerprint) == Wait
    ensures first < lotId && IsPendingTwin(s, site, fingerprint, first)
    ensures FindShared(s.lots, s.checks, first, site, fingerprint) != Wait
    ensures forall twin :: IsPendingTwin(s, site, fingerprint, twin) ==> first <= twin
  {
    WaitExactly(s, site, fingerprint, lotId);
    first := SmallestPendingTwin(s, site, fingerprint, lotId);
    WaitExactly(s, site, fingerprint, first);
  }

  /** The worker's lot is the smallest pending lot of the identity. */
  ghost predicate WorksOnFirstTwin(s: State, site: nat, fingerprint: Fingerprint, w: nat) {
    && w in s.workers && s.workers[w].fingerprint == fingerprint
    && s.workers[w].lotId in s.lots && s.lots[s.workers[w].lotId].site == site
    && PendingFor(s.lots[s.workers[w].lotId], fingerprint)
    && (forall twin :: IsPendingTwin(s, site, fingerprint, twin) ==> s.workers[w].lotId <= twin)
  }

  /** A classifying worker of the smallest pending lot is not sent away: it takes a shared check or goes on. */
  lemma FirstTwinIsNotSentAway(rules: Rules, s: State, site: nat, fingerprint: Fingerprint, w: nat, x: Answers)
    requires Inv(rules, s) && WorksOnFirstTwin(s, site, fingerprint, w)
    requires s.workers[w].place.FindingShared? && s.workers[w].place.classify
    ensures var next := Next(rules, s, Work(w, x));
            w in next.workers && (next.workers[w].place.RereadingForModel? || next.workers[w].place.Marking?)
  {
    hide FindShared, SavedCheck, Sound, DecisionApplied, ReferenceTried;
    assert WorkerIsSound(s, s.workers[w]);
    WaitExactly(s, site, fingerprint, s.workers[w].lotId);
  }

  /** After its model run there is a check for the identity, which is the one its twins will find. */
  lemma FirstTwinGetsACheck(rules: Rules, s: State, site: nat, fingerprint: Fingerprint, w: nat, x: Answers)
    requires Inv(rules, s) && WorksOnFirstTwin(s, site, fingerprint, w) && s.workers[w].place.RunningModel?
    ensures var next := Next(rules, s, Work(w, x));
            && w in next.workers && next.workers[w].place.Marking?
            && SavedFor(next.lots, next.checks, next.workers[w].place.checkId, site, fingerprint)
  {
    hide LotsAreSound, ChecksAreKeyed, FindShared, SavedCheck, DecisionApplied, ReferenceTried;
    NextKeepsInv(rules, s, Work(w, x));
    var next := Next(rules, s, Work(w, x));
    assert WorkerIsSound(next, next.workers[w]);
  }

  // ---------- The identity can always get its check ----------

  function RunFrom(rules: Rules, s: State, steps: seq<Step>): State
    decreases |steps|
  {
    if steps == [] then s else RunFrom(rules, Next(rules, s, steps[0]), steps[1..])
  }

  lemma {:induction false} RunContinues(rules: Rules, steps: seq<Step>, more: seq<Step>)
    ensures Run(rules, steps + more) == RunFrom(rules, Run(rules, steps), more)
    decreases |more|
  {
    hide Next;
    if more == [] {
      assert steps + more == steps;
    } else {
      var longer := steps + [more[0]];
      assert longer[..|steps|] == steps && longer + more[1..] == steps + more;
      RunContinues(rules, longer, more[1..]);
    }
  }

  lemma {:induction false} RunFromContinues(rules: Rules, s: State, steps: seq<Step>, more: seq<Step>)
    ensures RunFrom(rules, s, steps + more) == RunFrom(rules, RunFrom(rules, s, steps), more)
    decreases |steps|
  {
    hide Next;
    if steps == [] {
      assert steps + more == more;
    } else {
      assert (steps + more)[1..] == steps[1..] + more;
      RunFromContinues(rules, Next(rules, s, steps[0]), steps[1..], more);
    }
  }

  /** `s` with the worker at this place of its work on the lot. */
  function At(s: State, w: nat, lotId: nat, fingerprint: Fingerprint, place: Place): State {
    s.(workers := s.workers[w := Worker(lotId, fingerprint, place)])
  }

  lemma MovedTo(s: State, w: nat, lotId: nat, fingerprint: Fingerprint, place: Place, next: Place)
    ensures Moved(At(s, w, lotId, fingerprint, place), w, next) == At(s, w, lotId, fingerprint, next)
  {
    assert s.workers[w := Worker(lotId, fingerprint, place)][w := Worker(lotId, fingerprint, next)]
        == s.workers[w := Worker(lotId, fingerprint, next)];
  }

  /** Answers of a world that knows no reference for the name. */
  const NO_REFERENCE := Answers(0, None, true, 0, IgnoredOutput, false, None)

  /** The lot waits for a decision, and no twin with a smaller id does. */
  ghost predicate IsFirstTwin(s: State, site: nat, fingerprint: Fingerprint, lotId: nat) {
    && lotId in s.lots && s.lots[lotId].site == site && PendingFor(s.lots[lotId], fingerprint)
    && forall twin :: IsPendingTwin(s, site, fingerprint, twin) ==> lotId <= twin
  }

  predicate IsMiniatureIdentity(fingerprint: Fingerprint) {
    fingerprint.volume.Some? && fingerprint.volume.value <= 100
  }

  /** The first steps of a classifying worker: it starts, finds no reference and no own check. */
  lemma WorkerLooks(rules: Rules, s: State, site: nat, fingerprint: Fingerprint, lotId: nat, w: nat)
    requires Inv(rules, s) && IsFirstTwin(s, site, fingerprint, lotId) && w !in s.workers
    requires !IsMiniatureIdentity(fingerprint) && NothingSavedFor(s.lots, s.checks, site, fingerprint)
    ensures var lot := s.lots[lotId];
            RunFrom(rules, s, [StartWorker(w, lotId, fingerprint, true),
                               Work(w, NO_REFERENCE), Work(w, NO_REFERENCE)]) ==
            At(s, w, lotId, fingerprint,
               if lot.facts.None? then RequestingDetails(lot, true) else FindingShared(lot, true))
  {
    hide Inv, FindShared, SavedCheck, DecisionApplied;
    var lot := s.lots[lotId];
    LotIsSound(rules, s, lotId);
    CheckWithKeyFinds(s.checks, CheckKey(lotId, fingerprint), 0);
    var own := CheckWithKey(s.checks, CheckKey(lotId, fingerprint), 0);
    assert own.Some? ==> SavedFor(s.lots, s.checks, own.value, site, fingerprint);
    var trying, finding := TryingReference(lot, true), FindingOwnCheck(lot, true);
    var next := if lot.facts.None? then RequestingDetails(lot, true) else FindingShared(lot, true);
    var one := At(s, w, lotId, fingerprint, trying);
    assert Next(rules, s, StartWorker(w, lotId, fingerprint, true)) == one;
    MovedTo(s, w, lotId, fingerprint, trying, finding);
    var two := At(s, w, lotId, fingerprint, finding);
    assert Next(rules, one, Work(w, NO_REFERENCE)) == two;
    MovedTo(s, w, lotId, fingerprint, finding, next);
    assert Next(rules, two, Work(w, NO_REFERENCE)) == At(s, w, lotId, fingerprint, next);
    ThreeSteps(rules, s, StartWorker(w, lotId, fingerprint, true), Work(w, NO_REFERENCE), Work(w, NO_REFERENCE));
  }

  lemma ThreeSteps(rules: Rules, s: State, a: Step, b: Step, c: Step)
    ensures RunFrom(rules, s, [a, b, c]) == Next(rules, Next(rules, Next(rules, s, a), b), c)
  {
    hide Next;
    var one := Next(rules, s, a);
    var two := Next(rules, one, b);
    assert [a, b, c][1..] == [b, c] && [b, c][1..] == [c] && [c][1..] == [];
    assert RunFrom(rules, two, [c]) == RunFrom(rules, Next(rules, two, c), []);
    assert RunFrom(rules, one, [b, c]) == RunFrom(rules, two, [c]);
  }

  lemma LotIsSound(rules: Rules, s: State, lotId: nat)
    requires Inv(rules, s) && lotId in s.lots
    ensures SoundLot(rules, s.lots[lotId])
            && (IsMiniature(s.lots[lotId]) <==> IsMiniatureIdentity(s.lots[lotId].fingerprint))
  {
    assert Sound(rules, s.checks, s.lots[lotId]);
  }

  /** The last steps: no twin has a check and none with a smaller id is pending, so the worker runs the model and
      saves its result. */
  lemma WorkerClassifies(rules: Rules, s: State, site: nat, fingerprint: Fingerprint, lotId: nat, w: nat)
    requires IsFirstTwin(s, site, fingerprint, lotId) && NothingSavedFor(s.lots, s.checks, site, fingerprint)
    ensures var lot := s.lots[lotId];
            var after := RunFrom(rules, At(s, w, lotId, fingerprint, FindingShared(lot, true)),
                                 [Work(w, NO_REFERENCE), Work(w, NO_REFERENCE), Work(w, NO_REFERENCE)]);
            after.lots == s.lots && !NothingSavedFor(after.lots, after.checks, site, fingerprint)
  {
    hide ReferenceTried, DecisionApplied, DetailsAsked, SavedCheck, FindShared;
    var lot := s.lots[lotId];
    var x := NO_REFERENCE;
    NothingIsShared(s, site, fingerprint, lotId);
    var places := [FindingShared(lot, true), RereadingForModel, RunningModel(lot)];
    var zero := At(s, w, lotId, fingerprint, places[0]);
    MovedTo(s, w, lotId, fingerprint, places[0], places[1]);
    var one := At(s, w, lotId, fingerprint, places[1]);
    assert Next(rules, zero, Work(w, x)) == one;
    MovedTo(s, w, lotId, fingerprint, places[1], places[2]);
    var two := At(s, w, lotId, fingerprint, places[2]);
    assert Next(rules, one, Work(w, x)) == two;
    ThreeSteps(rules, zero, Work(w, x), Work(w, x), Work(w, x));
    var check := LotCheck(lotId, fingerprint, lot.name, x.output, x.exact, x.exactReference);
    SaveIsFollowed(s.lots, s.checks, lotId, site, fingerprint, check);
    var (checks, checkId) := SavedCheck(s.lots, s.checks, lotId, site, fingerprint, check);
    var after := Next(rules, two, Work(w, x));
    assert after.lots == s.lots && after.checks == checks;
    assert SavedFor(after.lots, after.checks, checkId, site, fingerprint);
  }

  lemma NothingIsShared(s: State, site: nat, fingerprint: Fingerprint, lotId: nat)
    requires IsFirstTwin(s, site, fingerprint, lotId) && NothingSavedFor(s.lots, s.checks, site, fingerprint)
    ensures FindShared(s.lots, s.checks, lotId, site, fingerprint) == NoneShared
  {
    TwinCheckIsOldest(s.lots, s.checks, lotId, site, fingerprint, 0);
    WaitExactly(s, site, fingerprint, lotId);
    var check := TwinCheck(s.lots, s.checks, lotId, site, fingerprint, 0);
    if check.Some? { assert SavedFor(s.lots, s.checks, check.value, site, fingerprint); }
  }

  /** Steps of this worker on this lot, and reads of the lot's details. */
  ghost predicate WorksOn(steps: seq<Step>, w: nat, lotId: nat) {
    forall step :: step in steps ==>
      match step
      case StartWorker(worker, id, _, _) => worker == w && id == lotId
      case Work(worker, _) => worker == w
      case ReadDetails(_, id, _, _) => id == lotId
      case _ => false
  }

  /** Once no detail read is outstanding, the worker's steps save a check. */
  lemma WorkerSavesACheck(rules: Rules, s: State, site: nat, fingerprint: Fingerprint, lotId: nat, w: nat)
      returns (steps: seq<Step>)
    requires Inv(rules, s) && IsFirstTwin(s, site, fingerprint, lotId) && w !in s.workers
    requires !IsMiniatureIdentity(fingerprint) && NothingSavedFor(s.lots, s.checks, site, fingerprint)
    requires s.lots[lotId].facts.Some? || !DetailsWanted(rules, s.lots[lotId], fingerprint)
    ensures WorksOn(steps, w, lotId)
    ensures var after := RunFrom(rules, s, steps); !NothingSavedFor(after.lots, after.checks, site, fingerprint)
  {
    hide Inv, Next, NothingSavedFor;
    var lot := s.lots[lotId];
    var looking := [StartWorker(w, lotId, fingerprint, true), Work(w, NO_REFERENCE), Work(w, NO_REFERENCE)];
    var classifying := [Work(w, NO_REFERENCE), Work(w, NO_REFERENCE), Work(w, NO_REFERENCE)];
    WorkerLooks(rules, s, site, fingerprint, lotId, w);
    WorkerClassifies(rules, s, site, fingerprint, lotId, w);
    if lot.facts.None? {
      SkipsDetails(rules, s, fingerprint, lotId, w);
      RunFromContinues(rules, s, looking, [Work(w, NO_REFERENCE)]);
      looking := looking + [Work(w, NO_REFERENCE)];
    }
    RunFromContinues(rules, s, looking, classifying);
    steps := looking + classifying;
  }

  lemma OneStep(rules: Rules, s: State, step: Step)
    ensures RunFrom(rules, s, [step]) == Next(rules, s, step)
  {
    hide Next;
    assert [step][1..] == [];
    assert RunFrom(rules, Next(rules, s, step), []) == Next(rules, s, step);
  }

  lemma SkipsDetails(rules: Rules, s: State, fingerprint: Fingerprint, lotId: nat, w: nat)
    requires lotId in s.lots && !DetailsWanted(rules, s.lots[lotId], fingerprint)
    ensures var lot := s.lots[lotId];
            RunFrom(rules, At(s, w, lotId, fingerprint, RequestingDetails(lot, true)), [Work(w, NO_REFERENCE)]) ==
            At(s, w, lotId, fingerprint, FindingShared(lot, true))
  {
    hide DetailsWanted, FindShared, SavedCheck, ReferenceTried, DecisionApplied;
    var lot := s.lots[lotId];
    var asking := At(s, w, lotId, fingerprint, RequestingDetails(lot, true));
    MovedTo(s, w, lotId, fingerprint, RequestingDetails(lot, true), FindingShared(lot, true));
    OneStep(rules, asking, Work(w, NO_REFERENCE));
  }

  /** A page without facts of its own completes the request and changes nothing else. */
  function EmptyDetails(lot: Lot, requestedAt: int): DetailObservation {
    DetailObservation(lot.fingerprint, lot.url, lot.checkId, requestedAt, None, None, None, requestedAt)
  }

  lemma EmptyDetailsComplete(rules: Rules, lot: Lot, requestedAt: int)
    requires SoundLot(rules, lot) && lot.facts.None? && lot.detailsRequestedAt == Some(requestedAt)
    requires lot.detailsCheckedAt.None? && lot.status == Pending && lot.bottleId.None?
    ensures DetailedLot(rules, lot, EmptyDetails(lot, requestedAt)) == lot.(detailsCheckedAt := Some(requestedAt))
  {}

  /** Where the site asks for details, the worker's steps and one read of the page complete them. */
  lemma DetailsGetRead(rules: Rules, s: State, site: nat, fingerprint: Fingerprint, lotId: nat, w: nat)
      returns (steps: seq<Step>)
    requires Inv(rules, s) && IsFirstTwin(s, site, fingerprint, lotId) && w !in s.workers
    requires !IsMiniatureIdentity(fingerprint) && NothingSavedFor(s.lots, s.checks, site, fingerprint)
    requires s.lots[lotId].facts.None? && DetailsWanted(rules, s.lots[lotId], fingerprint)
    ensures WorksOn(steps, w, lotId)
    ensures var after := RunFrom(rules, s, steps);
            && Inv(rules, after) && IsFirstTwin(after, site, fingerprint, lotId) && w !in after.workers
            && NothingSavedFor(after.lots, after.checks, site, fingerprint)
            && !DetailsWanted(rules, after.lots[lotId], fingerprint)
  {
    hide Inv, NothingSavedFor, FindShared, SavedCheck, ReferenceTried, DecisionApplied, DetailedLot;
    var lot := s.lots[lotId];
    var looking := [StartWorker(w, lotId, fingerprint, true), Work(w, NO_REFERENCE), Work(w, NO_REFERENCE)];
    WorkerLooks(rules, s, site, fingerprint, lotId, w);
    var asking := At(s, w, lotId, fingerprint, RequestingDetails(lot, true));
    var asked := DetailsRequested(lot, NO_REFERENCE.now);
    var requestedAt := asked.detailsRequestedAt.value;
    var waiting := s.(lots := s.lots[lotId := asked]);
    assert Next(rules, asking, Work(w, NO_REFERENCE)) == waiting by {
      assert s.workers[w := Worker(lotId, fingerprint, RequestingDetails(lot, true))] - {w} == s.workers;
    }
    LotIsSound(rules, s, lotId);
    EmptyDetailsComplete(rules, asked, requestedAt);
    var read := ReadDetails(site, lotId, EmptyDetails(asked, requestedAt), requestedAt);
    var after := Next(rules, waiting, read);
    assert after == s.(lots := s.lots[lotId := asked.(detailsCheckedAt := Some(requestedAt))]);
    OneStep(rules, asking, Work(w, NO_REFERENCE));
    OneStep(rules, waiting, read);
    RunFromContinues(rules, s, looking, [Work(w, NO_REFERENCE)]);
    RunFromContinues(rules, s, looking + [Work(w, NO_REFERENCE)], [read]);
    steps := looking + [Work(w, NO_REFERENCE)] + [read];
    DetailsKeepFirstTwin(rules, s, after, site, fingerprint, lotId);
  }

  lemma DetailsKeepFirstTwin(rules: Rules, s: State, after: State, site: nat, fingerprint: Fingerprint, lotId: nat)
    requires Inv(rules, s) && IsFirstTwin(s, site, fingerprint, lotId)
    requires NothingSavedFor(s.lots, s.checks, site, fingerprint)
    requires exists requested, checked ::
               after == s.(lots :=
                 s.lots[lotId := s.lots[lotId].(detailsRequestedAt := requested, detailsCheckedAt := checked)])
    ensures Inv(rules, after) && IsFirstTwin(after, site, fingerprint, lotId)
    ensures NothingSavedFor(after.lots, after.checks, site, fingerprint)
  {
    hide ChecksAreKeyed, WorkersAreSound;
    assert Sound(rules, s.checks, s.lots[lotId]);
    LotReplaced(rules, s, lotId, after.lots[lotId]);
    forall i: nat
      ensures SavedFor(after.lots, after.checks, i, site, fingerprint) ==>
              SavedFor(s.lots, s.checks, i, site, fingerprint) {}
    forall twin ensures IsPendingTwin(after, site, fingerprint, twin) <==> IsPendingTwin(s, site, fingerprint, twin) {}
  }

  lemma {:induction false} FreshWorker(workers: set<nat>) returns (w: nat)
    ensures forall v :: v in workers ==> v < w
  {
    if workers == {} { return 0; }
    var v :| v in workers;
    var rest := FreshWorker(workers - {v});
    w := if v < rest then rest else v + 1;
    forall u | u in workers ensures u < w { assert u == v || u in workers - {v}; }
  }

  /** From every reachable state in which lots of an identity wait and none has a check, one worker on the first of
      them, with a read of its details where the site asks for it, saves a check. Miniatures are ignored instead. */
  lemma GroupCanAlwaysGetACheck(rules: Rules, steps: seq<Step>, site: nat, fingerprint: Fingerprint, waiting: nat)
      returns (lotId: nat, w: nat, more: seq<Step>)
    requires IsPendingTwin(Run(rules, steps), site, fingerprint, waiting) && !IsMiniatureIdentity(fingerprint)
    requires NothingSavedFor(Run(rules, steps).lots, Run(rules, steps).checks, site, fingerprint)
    ensures lotId <= waiting && IsPendingTwin(Run(rules, steps), site, fingerprint, lotId) && WorksOn(more, w, lotId)
    ensures var after := Run(rules, steps + more); !NothingSavedFor(after.lots, after.checks, site, fingerprint)
  {
    hide Run, Inv, Next, NothingSavedFor, DetailsWanted;
    var s := Run(rules, steps);
    RunKeepsInv(rules, steps);
    lotId := SmallestPendingTwin(s, site, fingerprint, waiting + 1);
    LotIsSound(rules, s, lotId);
    assert IsFirstTwin(s, site, fingerprint, lotId);
    w := FreshWorker(s.workers.Keys);
    assert w !in s.workers;
    more := [];
    var now := s;
    if s.lots[lotId].facts.None? && DetailsWanted(rules, s.lots[lotId], fingerprint) {
      more := DetailsGetRead(rules, s, site, fingerprint, lotId, w);
      now := RunFrom(rules, s, more);
    }
    var saving := WorkerSavesACheck(rules, now, site, fingerprint, lotId, w);
    RunFromContinues(rules, s, more, saving);
    RunContinues(rules, steps, more + saving);
    more := more + saving;
  }

  // ---------- Miniatures ----------

  /** Starting work on a waiting miniature ignores it. */
  lemma MiniaturesAreIgnored(rules: Rules, s: State, site: nat, fingerprint: Fingerprint,
      lotId: nat, w: nat, classify: bool)
    requires Inv(rules, s) && IsPendingTwin(s, site, fingerprint, lotId) && IsMiniatureIdentity(fingerprint)
    requires w !in s.workers
    ensures var next := Next(rules, s, StartWorker(w, lotId, fingerprint, classify));
            && next == s.(lots := next.lots) && lotId in next.lots
            && next.lots[lotId] == s.lots[lotId].(status := Ignored)
  {
    hide WorkerStep, ObservedLot, DetailedLot, AssignedLot;
    LotIsSound(rules, s, lotId);
  }

  ghost predicate NoneWorksOnMiniatures(s: State) {
    forall w :: w in s.workers ==> !IsMiniatureIdentity(s.workers[w].fingerprint)
  }

  lemma StartsOnlyOnOthers(rules: Rules, s: State, step: Step, w: nat)
    requires Inv(rules, s) && w in Next(rules, s, step).workers && w !in s.workers
    ensures !IsMiniatureIdentity(Next(rules, s, step).workers[w].fingerprint)
  {
    hide ObservedLot, DetailedLot, AssignedLot, IgnoredLot, ReopenedLot, WorkerStep, LotsAreSound, ChecksAreKeyed;
    if step.StartWorker? && step.lotId in s.lots { LotIsSound(rules, s, step.lotId); }
    if step.Work? && step.worker in s.workers { WorkerKeepsItsLot(rules, s, step.worker, step.answers, w); }
  }

  lemma {:induction false} RunNeverWorksOnMiniatures(rules: Rules, steps: seq<Step>)
    ensures NoneWorksOnMiniatures(Run(rules, steps))
  {
    hide Next, Inv;
    if steps != [] {
      var front, step := steps[..|steps| - 1], steps[|steps| - 1];
      var s, next := Run(rules, front), Run(rules, steps);
      RunNeverWorksOnMiniatures(rules, front);
      RunKeepsInv(rules, front);
      forall w | w in next.workers ensures !IsMiniatureIdentity(next.workers[w].fingerprint) {
        if w in s.workers { WorkersStay(rules, s, step, w); } else { StartsOnlyOnOthers(rules, s, step, w); }
      }
    }
  }

  lemma WorkersStay(rules: Rules, s: State, step: Step, w: nat)
    requires w in s.workers && w in Next(rules, s, step).workers
    ensures Next(rules, s, step).workers[w].fingerprint == s.workers[w].fingerprint
  {
    hide ObservedLot, DetailedLot, AssignedLot, IgnoredLot, ReopenedLot, WorkerStep;
    if step.Work? && step.worker in s.workers { WorkerKeepsItsLot(rules, s, step.worker, step.answers, w); }
  }

  /** Over any run no check is ever saved for a miniature. */
  lemma {:induction false} NoCheckForMiniatures(rules: Rules, steps: seq<Step>, site: nat, fingerprint: Fingerprint)
    requires IsMiniatureIdentity(fingerprint)
    ensures var s := Run(rules, steps); NothingSavedFor(s.lots, s.checks, site, fingerprint)
  {
    hide Next, Inv;
    if steps != [] {
      var front, step := steps[..|steps| - 1], steps[|steps| - 1];
      var s, next := Run(rules, front), Run(rules, steps);
      NoCheckForMiniatures(rules, front, site, fingerprint);
      RunNeverWorksOnMiniatures(rules, front);
      RunKeepsInv(rules, front);
      forall i: nat ensures !SavedFor(next.lots, next.checks, i, site, fingerprint) {
        if SavedFor(next.lots, next.checks, i, site, fingerprint) {
          SavedBeforeOrByModelRun(rules, s, step, i, site, fingerprint);
        }
      }
    }
  }
}
