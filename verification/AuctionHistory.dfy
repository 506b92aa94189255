/** What a lot's listing facts owe to the observations delivered so far, in whatever order. */
module AuctionHistory {
  import opened Wrappers
  import opened AuctionRows
  import opened AuctionTables
  import opened AuctionProtocol

  lemma WorkKeepsListing(rules: Rules, s: State, w: nat, x: Answers, lotId: nat)
    requires w in s.workers
    ensures lotId in WorkerStep(rules, s, w, x).lots <==> lotId in s.lots
    ensures lotId in s.lots ==> SameListing(s.lots[lotId], WorkerStep(rules, s, w, x).lots[lotId])
  {
    hide FindShared, SavedCheck, AssessMatch, ReadEvidence, EvidenceSuffices, StillAsExpected, CatalogAgrees;
  }

  /** Only an observation creates a lot or changes its listing. */
  lemma OtherStepsKeepListing(rules: Rules, s: State, step: Step, lotId: nat)
    requires !step.Observe?
    ensures lotId in Next(rules, s, step).lots <==> lotId in s.lots
    ensures lotId in s.lots ==> SameListing(s.lots[lotId], Next(rules, s, step).lots[lotId])
  {
    hide WorkerStep, EvidenceSuffices, StillAsExpected, CatalogAgrees;
    if step.Work? && step.worker in s.workers { WorkKeepsListing(rules, s, step.worker, step.answers, lotId); }
  }

  /** Step `i` delivers a timely observation of this lot. */
  ghost predicate Delivers(steps: seq<Step>, i: nat, lotId: nat, site: nat, o: Observation) {
    i < |steps| && steps[i].Observe? && steps[i].lotId == lotId && steps[i].site == site && steps[i].observation == o
    && Timely(o.observedAt, steps[i].now)
  }

  ghost predicate Delivered(steps: seq<Step>, lotId: nat, site: nat, o: Observation) {
    exists i: nat :: Delivers(steps, i, lotId, site, o)
  }

  lemma DeliveredBefore(steps: seq<Step>, lotId: nat, site: nat, o: Observation)
    requires steps != []
    ensures Delivered(steps, lotId, site, o) <==>
            Delivered(steps[..|steps| - 1], lotId, site, o) || Delivers(steps, |steps| - 1, lotId, site, o)
  {
    var front := steps[..|steps| - 1];
    forall i: nat | i < |front| ensures Delivers(steps, i, lotId, site, o) <==> Delivers(front, i, lotId, site, o) {}
  }

  /** `lastCheckedAt` never goes back. */
  lemma LastCheckedOnlyGrows(rules: Rules, s: State, step: Step, lotId: nat)
    requires lotId in s.lots
    ensures lotId in Next(rules, s, step).lots
            && Next(rules, s, step).lots[lotId].lastCheckedAt >= s.lots[lotId].lastCheckedAt
  {
    hide WorkerStep, DetailedLot, AssignedLot;
    if !step.Observe? { OtherStepsKeepListing(rules, s, step, lotId); }
  }

  /** Step `i` delivers a newest observation of the lot, and no step before it does. */
  ghost predicate FirstNewest(steps: seq<Step>, i: nat, lotId: nat, site: nat) {
    && i < |steps| && steps[i].Observe? && Delivers(steps, i, lotId, site, steps[i].observation)
    && forall j: nat, o | Delivers(steps, j, lotId, site, o) ::
         o.observedAt <= steps[i].observation.observedAt && (j < i ==> o.observedAt < steps[i].observation.observedAt)
  }

  lemma FirstNewestStays(steps: seq<Step>, i: nat, lotId: nat, site: nat)
    requires steps != [] && FirstNewest(steps[..|steps| - 1], i, lotId, site)
    requires forall o :: Delivers(steps, |steps| - 1, lotId, site, o) ==>
               o.observedAt <= steps[i].observation.observedAt
    ensures FirstNewest(steps, i, lotId, site)
  {
    var front := steps[..|steps| - 1];
    assert Delivers(front, i, lotId, site, front[i].observation);
    forall j: nat, o | Delivers(steps, j, lotId, site, o)
      ensures o.observedAt <= steps[i].observation.observedAt
              && (j < i ==> o.observedAt < steps[i].observation.observedAt)
    {
      if j < |front| { assert Delivers(front, j, lotId, site, o); }
    }
  }

  lemma LastIsFirstNewest(steps: seq<Step>, i: nat, lotId: nat, site: nat)
    requires steps != [] && FirstNewest(steps[..|steps| - 1], i, lotId, site)
    requires var last := steps[|steps| - 1];
             && last.Observe? && Delivers(steps, |steps| - 1, lotId, site, last.observation)
             && last.observation.observedAt > steps[i].observation.observedAt
    ensures FirstNewest(steps, |steps| - 1, lotId, site)
  {
    var front := steps[..|steps| - 1];
    forall j: nat, o | Delivers(steps, j, lotId, site, o) && j < |front|
      ensures o.observedAt < steps[|steps| - 1].observation.observedAt
    {
      assert Delivers(front, j, lotId, site, o);
    }
  }

  /** A lot lists the newest observation delivered to it, and of several with that time the one that arrived first. */
  lemma {:induction false} FirstNewestIsListed(rules: Rules, steps: seq<Step>, lotId: nat) returns (i: nat)
    requires lotId in Run(rules, steps).lots
    ensures var lot := Run(rules, steps).lots[lotId];
            FirstNewest(steps, i, lotId, lot.site) && Lists(lot, steps[i].observation)
  {
    hide WorkerStep, DetailedLot, AssignedLot, FirstNewest;
    var n := |steps| - 1;
    var front, last := steps[..n], steps[n];
    var s := Run(rules, front);
    var site := Run(rules, steps).lots[lotId].site;
    if !last.Observe? { OtherStepsKeepListing(rules, s, last, lotId); }
    if lotId in s.lots {
      i := FirstNewestIsListed(rules, front, lotId);
      FirstNewestIsDelivered(front, i, lotId, site);
      if last.Observe? && Delivers(steps, n, lotId, site, last.observation)
         && last.observation.observedAt > steps[i].observation.observedAt {
        LastIsFirstNewest(steps, i, lotId, site);
        i := n;
      } else {
        FirstNewestStays(steps, i, lotId, site);
      }
    } else {
      i := n;
      NothingDeliveredYet(rules, front, lotId, site);
      OnlyDelivery(steps, front, lotId, site);
    }
  }

  lemma FirstNewestIsDelivered(steps: seq<Step>, i: nat, lotId: nat, site: nat)
    requires FirstNewest(steps, i, lotId, site)
    ensures i < |steps| && steps[i].Observe?
  {}

  lemma OnlyDelivery(steps: seq<Step>, front: seq<Step>, lotId: nat, site: nat)
    requires steps != [] && steps[|steps| - 1].Observe? && front == steps[..|steps| - 1]
    requires Delivers(steps, |steps| - 1, lotId, site, steps[|steps| - 1].observation)
    requires forall o :: !Delivered(front, lotId, site, o)
    ensures FirstNewest(steps, |steps| - 1, lotId, site)
  {
    forall j: nat, o | Delivers(steps, j, lotId, site, o) ensures j == |steps| - 1 {
      if j < |front| { assert Delivers(front, j, lotId, site, o) && Delivered(front, lotId, site, o); }
    }
  }

  /** A lot lists the newest observation delivered to it, whatever the order of arrival. */
  lemma NewestObservationIsListed(rules: Rules, steps: seq<Step>, lotId: nat) returns (newest: Observation)
    requires lotId in Run(rules, steps).lots
    ensures var lot := Run(rules, steps).lots[lotId];
            && Delivered(steps, lotId, lot.site, newest) && Lists(lot, newest)
            && forall o :: Delivered(steps, lotId, lot.site, o) ==> o.observedAt <= newest.observedAt
  {
    hide Run, Lists;
    var i := FirstNewestIsListed(rules, steps, lotId);
    newest := steps[i].observation;
  }

  lemma {:induction false} NothingDeliveredYet(rules: Rules, steps: seq<Step>, lotId: nat, site: nat)
    requires lotId !in Run(rules, steps).lots
    ensures forall o :: !Delivered(steps, lotId, site, o)
  {
    hide WorkerStep, DetailedLot, AssignedLot, ObservedLot;
    if steps != [] {
      var front, last := steps[..|steps| - 1], steps[|steps| - 1];
      var s := Run(rules, front);
      if !last.Observe? { OtherStepsKeepListing(rules, s, last, lotId); }
      NothingDeliveredYet(rules, front, lotId, site);
      forall o ensures !Delivered(steps, lotId, site, o) { DeliveredBefore(steps, lotId, site, o); }
    }
  }

  ghost predicate SameFacts(o: Observation, p: Observation) {
    o.name == p.name && o.url == p.url && o.state == p.state
  }

  /** The newest observations delivered to the lot say the same. */
  ghost predicate NewestAgree(steps: seq<Step>, lotId: nat, site: nat) {
    forall o, p | Delivered(steps, lotId, site, o) && Delivered(steps, lotId, site, p)
                  && o.observedAt == p.observedAt ::
      (forall q :: Delivered(steps, lotId, site, q) ==> q.observedAt <= o.observedAt) ==> SameFacts(o, p)
  }

  /** Two runs that deliver the same observations list the same facts, if the newest ones agree. */
  lemma ArrivalOrderDoesNotMatter(rules: Rules, steps: seq<Step>, others: seq<Step>, lotId: nat)
    requires lotId in Run(rules, steps).lots && lotId in Run(rules, others).lots
    requires Run(rules, steps).lots[lotId].site == Run(rules, others).lots[lotId].site
    requires var site := Run(rules, steps).lots[lotId].site;
             && (forall o :: Delivered(steps, lotId, site, o) <==> Delivered(others, lotId, site, o))
             && NewestAgree(steps, lotId, site)
    ensures SameListing(Run(rules, steps).lots[lotId], Run(rules, others).lots[lotId])
  {
    hide Run, Delivered;
    var newest := NewestObservationIsListed(rules, steps, lotId);
    var other := NewestObservationIsListed(rules, others, lotId);
    assert newest.observedAt == other.observedAt;
  }

  // ---------- When the order shows ----------

  /** The deliveries of a list of observations, in order and each on time. */
  function Deliveries(list: seq<Observation>, lotId: nat, site: nat): seq<Step> {
    if list == [] then []
    else
      var last := list[|list| - 1];
      Deliveries(list[..|list| - 1], lotId, site) + [Observe(lotId, site, last, last.observedAt)]
  }

  lemma {:induction false} DeliveryAt(list: seq<Observation>, lotId: nat, site: nat, i: nat)
    ensures |Deliveries(list, lotId, site)| == |list|
    ensures i < |list| ==> Deliveries(list, lotId, site)[i] == Observe(lotId, site, list[i], list[i].observedAt)
  {
    if list != [] { DeliveryAt(list[..|list| - 1], lotId, site, i); }
  }

  lemma DeliveredIsListed(list: seq<Observation>, lotId: nat, site: nat, o: Observation)
    ensures Delivered(Deliveries(list, lotId, site), lotId, site, o) <==> o in list
  {
    var steps := Deliveries(list, lotId, site);
    forall i: nat { DeliveryAt(list, lotId, site, i); }
    if o in list {
      var i :| 0 <= i < |list| && list[i] == o;
      assert Delivers(steps, i, lotId, site, o);
    }
  }

  lemma {:induction false} DeliveriesMakeTheLot(rules: Rules, list: seq<Observation>, lotId: nat, site: nat)
    requires list != []
    ensures var lots := Run(rules, Deliveries(list, lotId, site)).lots; lotId in lots && lots[lotId].site == site
  {
    hide WorkerStep, DetailedLot, AssignedLot;
    var front := list[..|list| - 1];
    var steps := Deliveries(list, lotId, site);
    assert steps[..|steps| - 1] == Deliveries(front, lotId, site);
    if front != [] { DeliveriesMakeTheLot(rules, front, lotId, site); }
  }

  function LotsAfter(rules: Rules, list: seq<Observation>, lotId: nat, site: nat): Lots {
    Run(rules, Deliveries(list, lotId, site)).lots
  }

  /** The first of the newest observations is the one listed. */
  lemma FirstOfNewestIsListed(rules: Rules, list: seq<Observation>, lotId: nat, site: nat)
    requires list != [] && forall o :: o in list ==> o.observedAt <= list[0].observedAt
    ensures var lots := Run(rules, Deliveries(list, lotId, site)).lots; lotId in lots && Lists(lots[lotId], list[0])
  {
    hide Run, Lists;
    var steps := Deliveries(list, lotId, site);
    DeliveriesMakeTheLot(rules, list, lotId, site);
    var i := FirstNewestIsListed(rules, steps, lotId);
    forall j: nat { DeliveryAt(list, lotId, site, j); }
    assert Delivers(steps, 0, lotId, site, list[0]);
    assert list[i] in list;
  }

  ghost predicate NewestOf(list: seq<Observation>, o: Observation) {
    o in list && forall p :: p in list ==> p.observedAt <= o.observedAt
  }

  function MovedFirst(list: seq<Observation>, i: nat): seq<Observation>
    requires i < |list|
  {
    [list[i]] + list[..i] + list[i + 1..]
  }

  lemma MovedFirstIsReordered(list: seq<Observation>, i: nat)
    requires i < |list|
    ensures multiset(MovedFirst(list, i)) == multiset(list) && MovedFirst(list, i)[0] == list[i]
    ensures forall o :: o in MovedFirst(list, i) <==> o in list
  {
    assert list == list[..i] + [list[i]] + list[i + 1..];
  }

  /** Delivering the list in this order gives the lot the same listing. */
  ghost predicate ListedAlike(rules: Rules, list: seq<Observation>, order: seq<Observation>, lotId: nat, site: nat) {
    var lots, others := LotsAfter(rules, list, lotId, site), LotsAfter(rules, order, lotId, site);
    lotId in lots && lotId in others && SameListing(lots[lotId], others[lotId])
  }

  ghost predicate NewestAreAlike(list: seq<Observation>) {
    forall o, p | NewestOf(list, o) && NewestOf(list, p) :: SameFacts(o, p)
  }

  lemma OrderHidden(rules: Rules, list: seq<Observation>, order: seq<Observation>, lotId: nat, site: nat)
    requires list != [] && multiset(order) == multiset(list)
    requires NewestAreAlike(list)
    ensures ListedAlike(rules, list, order, lotId, site)
  {
    hide Run, Deliveries, Delivered, SameFacts;
    forall o ensures o in order <==> o in list {
      assert o in order <==> o in multiset(order);
      assert o in list <==> o in multiset(list);
    }
    assert list[0] in list && order != [];
    var steps, others := Deliveries(list, lotId, site), Deliveries(order, lotId, site);
    DeliveriesMakeTheLot(rules, list, lotId, site);
    DeliveriesMakeTheLot(rules, order, lotId, site);
    forall o { DeliveredIsListed(list, lotId, site, o); }
    forall o { DeliveredIsListed(order, lotId, site, o); }
    assert NewestAgree(steps, lotId, site);
    ArrivalOrderDoesNotMatter(rules, steps, others, lotId);
  }

  lemma OrderShows(rules: Rules, list: seq<Observation>, i: nat, j: nat, lotId: nat, site: nat)
    requires i < |list| && j < |list| && NewestOf(list, list[i]) && NewestOf(list, list[j])
    requires !SameFacts(list[i], list[j])
    ensures var first, second := MovedFirst(list, i), MovedFirst(list, j);
            multiset(first) == multiset(list) && multiset(second) == multiset(list)
            && !(ListedAlike(rules, list, first, lotId, site) && ListedAlike(rules, list, second, lotId, site))
  {
    hide Run, Deliveries, MovedFirst;
    MovedFirstIsReordered(list, i);
    MovedFirstIsReordered(list, j);
    FirstOfNewestIsListed(rules, MovedFirst(list, i), lotId, site);
    FirstOfNewestIsListed(rules, MovedFirst(list, j), lotId, site);
  }

  /** Every order of arrival lists the same facts exactly when the newest observations agree: else the first to
      arrive of them wins. */
  lemma ArrivalOrderShowsExactly(rules: Rules, list: seq<Observation>, lotId: nat, site: nat)
    requires list != []
    ensures (forall order | multiset(order) == multiset(list) :: ListedAlike(rules, list, order, lotId, site))
            <==> NewestAreAlike(list)
  {
    hide ListedAlike, MovedFirst;
    if NewestAreAlike(list) {
      forall order | multiset(order) == multiset(list) { OrderHidden(rules, list, order, lotId, site); }
    } else {
      var o, p :| NewestOf(list, o) && NewestOf(list, p) && !SameFacts(o, p);
      var i :| 0 <= i < |list| && list[i] == o;
      var j :| 0 <= j < |list| && list[j] == p;
      OrderShows(rules, list, i, j, lotId, site);
    }
  }

  /** Two observations of one time and different pages: whichever arrives first is listed. */
  lemma TiedObservationsShowOrder(rules: Rules)
    ensures var o := Observation("n", "a", Omitted, Omitted, Live, Omitted, None, 0);
            var p := o.(url := "b");
            var first, second := LotsAfter(rules, [o, p], 0, 0), LotsAfter(rules, [p, o], 0, 0);
            0 in first && 0 in second && first[0].url == "a" && second[0].url == "b"
  {
    hide Run, Deliveries;
    var o := Observation("n", "a", Omitted, Omitted, Live, Omitted, None, 0);
    FirstOfNewestIsListed(rules, [o, o.(url := "b")], 0, 0);
    FirstOfNewestIsListed(rules, [o.(url := "b"), o], 0, 0);
  }

  // ---------- What `availableSince` means ----------

  function TimeOf(step: Step): int {
    match step
    case Observe(_, _, _, now) => now
    case ModeratorAssigns(_, _, _, now) => now
    case Work(_, answers) => answers.now
    case _ => 0
  }

  /** The lot is live at a step that matches or relists it, and the step's time, or its observation's, is kept. */
  ghost predicate Starts(lot: Lot, step: Step, since: int) {
    && (step.Observe? || step.ModeratorAssigns? || step.Work?)
    && IsLive(lot, TimeOf(step))
    && (since == TimeOf(step) || (step.Observe? && since == step.observation.observedAt))
  }

  ghost predicate Continues(before: Lots, lotId: nat, lot: Lot) {
    lotId in before && before[lotId].availableSince == lot.availableSince && before[lotId].bottleId == lot.bottleId
  }

  lemma AssignmentStartsOrContinues(rules: Rules, s: State, lotId: nat, a: Assignment, c: Catalog, now: int)
    ensures var after := Assigned(rules, s, lotId, a, c, now);
            after.Some? && after.value.availableSince.Some? ==>
              (IsLive(after.value, now) && after.value.availableSince == Some(now))
              || Continues(s.lots, lotId, after.value)
  {
    hide EvidenceSuffices, StillAsExpected, CatalogAgrees, CheckAt;
  }

  lemma WorkStartsOrContinues(rules: Rules, s: State, w: nat, x: Answers, lotId: nat)
    requires w in s.workers && lotId in WorkerStep(rules, s, w, x).lots
    requires WorkerStep(rules, s, w, x).lots[lotId].availableSince.Some?
    ensures var lot := WorkerStep(rules, s, w, x).lots[lotId];
            Starts(lot, Work(w, x), lot.availableSince.value) || Continues(s.lots, lotId, lot)
  {
    hide FindShared, SavedCheck, AssessMatch, ReadEvidence, Assigned, IsLive;
    var k := s.workers[w];
    forall a, c { AssignmentStartsOrContinues(rules, s, k.lotId, a, c, x.now); }
  }

  lemma StepStartsOrContinues(rules: Rules, s: State, step: Step, lotId: nat)
    requires Inv(rules, s)
             && lotId in Next(rules, s, step).lots && Next(rules, s, step).lots[lotId].availableSince.Some?
    ensures var lot := Next(rules, s, step).lots[lotId];
            Starts(lot, step, lot.availableSince.value) || Continues(s.lots, lotId, lot)
  {
    hide WorkerStep, Assigned, KnownFacts, IdentityFingerprint, ChecksAreKeyed, WorkersAreSound;
    assert lotId in s.lots ==> Sound(rules, s.checks, s.lots[lotId]);
    match step {
      case Work(w, x) => if w in s.workers { WorkStartsOrContinues(rules, s, w, x, lotId); }
      case ModeratorAssigns(id, a, c, now) => AssignmentStartsOrContinues(rules, s, id, a, c, now);
      case _ =>
    }
  }

  /** In every reachable state: a lot available since some time was live at a step of that time, or relisted then as
      live, and has had its present Bottle ever since. */
  lemma {:induction false} AvailableSinceMeans(rules: Rules, steps: seq<Step>, lotId: nat) returns (j: nat)
    requires lotId in Run(rules, steps).lots && Run(rules, steps).lots[lotId].availableSince.Some?
    ensures var lot := Run(rules, steps).lots[lotId];
            && lot.bottleId.Some? && j < |steps|
            && (forall k :: j < k <= |steps| ==> Continues(Run(rules, steps[..k]).lots, lotId, lot))
            && Starts(Run(rules, steps[..j + 1]).lots[lotId], steps[j], lot.availableSince.value)
  {
    hide Next, Starts;
    var n := |steps| - 1;
    var front := steps[..n];
    var lot := Run(rules, steps).lots[lotId];
    RunKeepsInv(rules, front);
    RunKeepsInv(rules, steps);
    assert Sound(rules, Run(rules, steps).checks, lot);
    StepStartsOrContinues(rules, Run(rules, front), steps[n], lotId);
    assert steps[..n + 1] == steps;
    if Starts(lot, steps[n], lot.availableSince.value) {
      j := n;
    } else {
      j := AvailableSinceMeans(rules, front, lotId);
      forall k | j < k <= |steps| ensures Continues(Run(rules, steps[..k]).lots, lotId, lot) {
        if k <= n { assert front[..k] == steps[..k]; }
      }
      assert front[..j + 1] == steps[..j + 1];
    }
  }
}
