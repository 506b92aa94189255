/** How a publisher's score becomes a score out of 100. Numbers are reals; a date is its day number. */
module ReviewScoring {
  import opened Wrappers

  /** A JavaScript number. */
  datatype Number = Finite(value: real) | NotFinite

  datatype NativeScore = NativeScore(value: Number, scale: Number)
  datatype Point = Point(source: real, target: real)
  datatype Rule = Rule(scale: real, guideUrl: string, from: Option<int>, until: Option<int>, points: seq<Point>)
  datatype Policy = Policy(enabled: bool, rules: seq<Rule>)

  datatype Reason = Counted | NoScore | NotConfigured | Excluded | UnsupportedScale | OutsideRange | OutsideDates
  datatype Contribution = Contribution(value: Option<int>, reason: Reason, guideUrl: Option<string>)

  function ExcludedFor(reason: Reason): Contribution {
    Contribution(None, reason, None)
  }

  /** `Math.round`: halves go up. */
  function Round(x: real): int {
    (x + 0.5).Floor
  }

  predicate IsInteger(x: real) {
    x == x.Floor as real
  }

  // ---------- Rule selection ----------

  function RulesForScale(rules: seq<Rule>, scale: real): seq<Rule> {
    if rules == [] then []
    else (if rules[0].scale == scale then [rules[0]] else []) + RulesForScale(rules[1..], scale)
  }

  /** Ends are exclusive; an undated review only meets an undated rule. */
  predicate Applies(rule: Rule, date: Option<int>) {
    (rule.from.None? && rule.until.None?)
    || (date.Some?
        && (rule.from.Some? ==> date.value >= rule.from.value)
        && (rule.until.Some? ==> date.value < rule.until.value))
  }

  function RuleFor(rules: seq<Rule>, date: Option<int>): Option<Rule> {
    if rules == [] then None
    else if Applies(rules[0], date) then Some(rules[0])
    else RuleFor(rules[1..], date)
  }

  // ---------- Interpolation ----------

  /** The first point at or above `value`; the number of points when there is none. */
  function UpperIndex(points: seq<Point>, value: real): (i: nat)
    ensures i <= |points|
    ensures i < |points| ==> value <= points[i].source
  {
    if points == [] || value <= points[0].source then 0 else 1 + UpperIndex(points[1..], value)
  }

  lemma {:induction false} UpperIndexIsFirst(points: seq<Point>, value: real)
    ensures forall k :: 0 <= k < UpperIndex(points, value) ==> points[k].source < value
  {
    if points != [] && value > points[0].source { UpperIndexIsFirst(points[1..], value); }
  }

  predicate InTable(points: seq<Point>, value: real) {
    UpperIndex(points, value) < |points| && points[0].source <= value
  }

  function OnSegment(lower: Point, upper: Point, value: real): real
    requires lower.source < upper.source
  {
    lower.target + (value - lower.source) * (upper.target - lower.target) / (upper.source - lower.source)
  }

  /** The points may be in any order: the divisor is never zero. */
  function Interpolated(points: seq<Point>, value: real): real
    requires InTable(points, value)
  {
    UpperIndexIsFirst(points, value);
    var i := UpperIndex(points, value);
    var upper := points[i];
    var lower := points[if i == 0 then 0 else i - 1];
    if upper.source == value then upper.target else OnSegment(lower, upper, value)
  }

  function ConvertExternalReviewScore(native: Option<NativeScore>, publishedAt: Option<int>, policy: Option<Policy>)
    : Contribution
  {
    if native.None? then ExcludedFor(NoScore)
    else if native.value.value.NotFinite? || native.value.scale.NotFinite? then ExcludedFor(OutsideRange)
    else
      var value, scale := native.value.value.value, native.value.scale.value;
      if scale <= 0.0 || value < 0.0 || value > scale then ExcludedFor(OutsideRange)
      else if policy.None? then
        if scale == 100.0 && IsInteger(value) then Contribution(Some(value.Floor), Counted, None)
        else ExcludedFor(NotConfigured)
      else if !policy.value.enabled then ExcludedFor(Excluded)
      else
        var rules := RulesForScale(policy.value.rules, scale);
        if rules == [] then ExcludedFor(UnsupportedScale)
        else
          var rule := RuleFor(rules, publishedAt);
          if rule.None? then ExcludedFor(OutsideDates)
          else if !InTable(rule.value.points, value) then ExcludedFor(OutsideRange)
          else Contribution(Some(Round(Interpolated(rule.value.points, value))), Counted, Some(rule.value.guideUrl))
  }

  /** The conversion of a finite score under a policy. */
  function Converted(value: real, scale: real, publishedAt: Option<int>, policy: Policy): Contribution {
    ConvertExternalReviewScore(Some(NativeScore(Finite(value), Finite(scale))), publishedAt, Some(policy))
  }

  // ---------- Interpolation: between, monotone, exact on the points ----------

  /** What the settings demand of a table: rising scores, never-falling targets. */
  ghost predicate Rising(points: seq<Point>) {
    forall i, j :: 0 <= i < j < |points| ==> points[i].source < points[j].source && points[i].target <= points[j].target
  }

  lemma PartsGrow(a: real, c: real, b: real, d: real)
    requires a <= c && d > 0.0 && b >= 0.0
    ensures a * b / d <= c * b / d
  {
    assert a * b <= c * b;
    assert a * b / d * d == a * b && c * b / d * d == c * b;
  }

  lemma SegmentIsMonotone(lower: Point, upper: Point, value: real, other: real)
    requires lower.source < upper.source && value <= other
    ensures lower.target <= upper.target ==> OnSegment(lower, upper, value) <= OnSegment(lower, upper, other)
    ensures lower.target >= upper.target ==> OnSegment(lower, upper, value) >= OnSegment(lower, upper, other)
  {
    var a, c, b, d := value - lower.source, other - lower.source,
                       upper.target - lower.target, upper.source - lower.source;
    if b >= 0.0 { PartsGrow(a, c, b, d); } else { PartsGrow(-c, -a, -b, d); }
    if b < 0.0 {
      assert -c * -b == c * b && -a * -b == a * b;
    }
  }

  lemma SegmentEnds(lower: Point, upper: Point)
    requires lower.source < upper.source
    ensures OnSegment(lower, upper, lower.source) == lower.target
    ensures OnSegment(lower, upper, upper.source) == upper.target
  {
    var b, d := upper.target - lower.target, upper.source - lower.source;
    assert d * b / d == b;
  }

  lemma RoundIsMonotone(x: real, y: real)
    requires x <= y
    ensures Round(x) <= Round(y)
  {}

  /** The value lies between the targets of its segment, even in an unordered table. */
  lemma InterpolatedIsBetween(points: seq<Point>, value: real)
    requires InTable(points, value)
    ensures var i := UpperIndex(points, value);
            var lower, upper := points[if i == 0 then 0 else i - 1].target, points[i].target;
            && (lower <= upper ==> lower <= Interpolated(points, value) <= upper)
            && (upper <= lower ==> upper <= Interpolated(points, value) <= lower)
  {
    UpperIndexIsFirst(points, value);
    var i := UpperIndex(points, value);
    hide OnSegment;
    if value < points[i].source {
      SegmentEnds(points[i - 1], points[i]);
      SegmentIsMonotone(points[i - 1], points[i], points[i - 1].source, value);
      SegmentIsMonotone(points[i - 1], points[i], value, points[i].source);
    }
  }

  /** The value lies on the line through the two points around the score: it has moved from the one target to the other
      in the same proportion as the score from the one source to the other. */
  lemma InterpolatedIsProportional(points: seq<Point>, value: real)
    requires InTable(points, value)
    ensures var i := UpperIndex(points, value);
            var lower, upper := points[if i == 0 then 0 else i - 1], points[i];
            && (lower.source < value < upper.source || value == upper.source)
            && (Interpolated(points, value) - lower.target) * (upper.source - lower.source)
               == (value - lower.source) * (upper.target - lower.target)
  {
    UpperIndexIsFirst(points, value);
    var i := UpperIndex(points, value);
    if value < points[i].source {
      var part, width := (value - points[i - 1].source) * (points[i].target - points[i - 1].target),
                         points[i].source - points[i - 1].source;
      assert part / width * width == part;
    }
  }

  /** Between (3, 70) and (4, 90) a score of 3.5 out of 5 becomes 80. */
  lemma HalfWayExample(guideUrl: string, publishedAt: Option<int>)
    ensures var rule := Rule(5.0, guideUrl, None, None, [Point(3.0, 70.0), Point(4.0, 90.0)]);
            Converted(3.5, 5.0, publishedAt, Policy(true, [rule])) == Contribution(Some(80), Counted, Some(guideUrl))
  {
    var points := [Point(3.0, 70.0), Point(4.0, 90.0)];
    var rule := Rule(5.0, guideUrl, None, None, points);
    assert points[1..] == [Point(4.0, 90.0)] && UpperIndex(points[1..], 3.5) == 0;
    assert UpperIndex(points, 3.5) == 1;
    assert RulesForScale([rule][1..], 5.0) == [] && RulesForScale([rule], 5.0) == [rule];
    InterpolatedIsProportional(points, 3.5);
  }

  /** The rounded value lies between too: between the rounded targets of its segment. */
  lemma RoundedIsBetween(points: seq<Point>, value: real)
    requires InTable(points, value)
    ensures var i := UpperIndex(points, value);
            var lower, upper := Round(points[if i == 0 then 0 else i - 1].target), Round(points[i].target);
            && (lower <= upper ==> lower <= Round(Interpolated(points, value)) <= upper)
            && (upper <= lower ==> upper <= Round(Interpolated(points, value)) <= lower)
  {
    hide Interpolated, Round;
    var i := UpperIndex(points, value);
    var lower, upper := points[if i == 0 then 0 else i - 1].target, points[i].target;
    InterpolatedIsBetween(points, value);
    if lower <= upper {
      RoundIsMonotone(lower, Interpolated(points, value));
      RoundIsMonotone(Interpolated(points, value), upper);
    } else {
      RoundIsMonotone(upper, Interpolated(points, value));
      RoundIsMonotone(Interpolated(points, value), lower);
    }
  }

  /** A score that is a point of a rising table gets exactly that point's target. */
  lemma PointsAreExact(points: seq<Point>, k: nat)
    requires Rising(points) && k < |points|
    ensures InTable(points, points[k].source) && Interpolated(points, points[k].source) == points[k].target
  {
    var value := points[k].source;
    UpperIndexIsFirst(points, value);
    UpperReaches(points, value, k);
    var i := UpperIndex(points, value);
    assert i == k;
  }

  lemma {:induction false} UpperReaches(points: seq<Point>, value: real, k: nat)
    requires k < |points| && value <= points[k].source
    ensures UpperIndex(points, value) <= k
  {
    if value > points[0].source { UpperReaches(points[1..], value, k - 1); }
  }

  /** A rising table covers exactly the scores between its first and last points. */
  lemma RisingTableCovers(points: seq<Point>, value: real)
    requires Rising(points) && points != []
    ensures InTable(points, value) <==> points[0].source <= value <= points[|points| - 1].source
  {
    UpperIndexIsFirst(points, value);
    if value <= points[|points| - 1].source { UpperReaches(points, value, |points| - 1); }
  }

  lemma InterpolatedIsMonotone(points: seq<Point>, value: real, other: real)
    requires Rising(points) && InTable(points, value) && InTable(points, other) && value <= other
    ensures Interpolated(points, value) <= Interpolated(points, other)
  {
    hide OnSegment;
    UpperIndexIsFirst(points, value);
    UpperIndexIsFirst(points, other);
    var i, j := UpperIndex(points, value), UpperIndex(points, other);
    UpperReaches(points, value, j);
    InterpolatedIsBetween(points, value);
    InterpolatedIsBetween(points, other);
    if i == j && other < points[i].source {
      SegmentIsMonotone(points[i - 1], points[i], value, other);
    }
  }

  /** A better native score never gets a worse converted score. */
  lemma ConversionIsMonotone(value: real, other: real, scale: real, publishedAt: Option<int>, policy: Policy)
    requires value <= other
    requires forall rule :: rule in policy.rules ==> Rising(rule.points)
    requires Converted(value, scale, publishedAt, policy).reason == Counted
    requires Converted(other, scale, publishedAt, policy).reason == Counted
    ensures var a, b := Converted(value, scale, publishedAt, policy), Converted(other, scale, publishedAt, policy);
            a.value.Some? && b.value.Some? && a.value.value <= b.value.value && a.guideUrl == b.guideUrl
  {
    var rules := RulesForScale(policy.rules, scale);
    RuleForFinds(rules, publishedAt);
    RulesForScaleFilters(policy.rules, scale);
    var points := RuleFor(rules, publishedAt).value.points;
    InterpolatedIsMonotone(points, value, other);
    RoundIsMonotone(Interpolated(points, value), Interpolated(points, other));
  }

  /** A counted score is a whole score from 0 to 100 when the table's targets are between 0 and 100. */
  lemma CountedIsPercent(native: NativeScore, publishedAt: Option<int>, policy: Option<Policy>)
    requires policy.Some? ==> forall rule, k :: rule in policy.value.rules && 0 <= k < |rule.points| ==>
               0.0 <= rule.points[k].target <= 100.0
    ensures var c := ConvertExternalReviewScore(Some(native), publishedAt, policy);
            && (c.reason == Counted <==> c.value.Some?)
            && (c.value.Some? ==> 0 <= c.value.value <= 100)
  {
    if native.value.Finite? && native.scale.Finite? && policy.Some? {
      var rules := RulesForScale(policy.value.rules, native.scale.value);
      RuleForFinds(rules, publishedAt);
      RulesForScaleFilters(policy.value.rules, native.scale.value);
      var rule := RuleFor(rules, publishedAt);
      if rule.Some? && InTable(rule.value.points, native.value.value) {
        InterpolatedIsBetween(rule.value.points, native.value.value);
        RoundIsMonotone(0.0, Interpolated(rule.value.points, native.value.value));
        RoundIsMonotone(Interpolated(rule.value.points, native.value.value), 100.0);
      }
    }
  }

  // ---------- Which reason is given ----------

  /** A usable score: finite, on a scale above zero, and not beyond either end of it. */
  ghost predicate OnScale(native: NativeScore) {
    && native.value.Finite? && native.scale.Finite?
    && 0.0 < native.scale.value && 0.0 <= native.value.value <= native.scale.value
  }

  ghost predicate HasScale(rules: seq<Rule>, scale: real) {
    exists rule :: rule in rules && rule.scale == scale
  }

  ghost predicate HasDate(rules: seq<Rule>, scale: real, publishedAt: Option<int>) {
    exists rule :: rule in rules && rule.scale == scale && Applies(rule, publishedAt)
  }

  /** The nearest whole number; a half goes up. */
  lemma RoundIsNearest(x: real)
    ensures Round(x) as real - 0.5 <= x < Round(x) as real + 0.5
  {}

  /** Without settings only whole scores out of 100 count, each as itself. */
  lemma UnconfiguredExactly(native: NativeScore, publishedAt: Option<int>)
    requires OnScale(native)
    ensures var c := ConvertExternalReviewScore(Some(native), publishedAt, None);
            if native.scale.value == 100.0 && native.value.value == native.value.value.Floor as real
            then c.reason == Counted && c.value.Some? && c.value.value as real == native.value.value
            else c == Contribution(None, NotConfigured, None)
  {}

  /** Why a score does not count: which reason is given, for every score and setting. */
  lemma ReasonExactly(native: Option<NativeScore>, publishedAt: Option<int>, policy: Option<Policy>)
    ensures var c := ConvertExternalReviewScore(native, publishedAt, policy);
            && (c.reason == NoScore <==> native.None?)
            && (native.Some? && !OnScale(native.value) ==> c.reason == OutsideRange)
            && (native.Some? && OnScale(native.value) && policy.Some? ==>
                  var scale, rules := native.value.scale.value, policy.value.rules;
                  && (c.reason == Excluded <==> !policy.value.enabled)
                  && (c.reason == UnsupportedScale <==> policy.value.enabled && !HasScale(rules, scale))
                  && (c.reason == OutsideDates <==>
                        policy.value.enabled && HasScale(rules, scale) && !HasDate(rules, scale, publishedAt)))
  {
    hide InTable, Interpolated, Round, Applies;
    if native.Some? && native.value.scale.Finite? && policy.Some? {
      var scale := native.value.scale.value;
      var rules := RulesForScale(policy.value.rules, scale);
      RulesForScaleFilters(policy.value.rules, scale);
      RuleForFinds(rules, publishedAt);
      assert rules != [] ==> rules[0] in rules;
    }
  }

  /** The contribution is what this rule's table makes of the score, to the nearest whole number. */
  ghost predicate IsBy(c: Contribution, rule: Rule, value: real) {
    && InTable(rule.points, value)
    && var exact := Interpolated(rule.points, value);
       c.value.Some? && c.value.value as real - 0.5 <= exact < c.value.value as real + 0.5
       && c.guideUrl == Some(rule.guideUrl)
  }

  ghost predicate OnlyRule(rules: seq<Rule>, rule: Rule, scale: real, publishedAt: Option<int>) {
    && rule in rules && rule.scale == scale && Applies(rule, publishedAt)
    && forall other :: other in rules && other.scale == scale && Applies(other, publishedAt) ==> other == rule
  }

  /** A score counts only by a rule of its scale and date, and a rule of its scale and date whose table holds it
      counts it when no other rule of that scale applies. */
  lemma CountedByItsRule(value: real, scale: real, publishedAt: Option<int>, policy: Policy)
    requires policy.enabled && 0.0 <= value <= scale && 0.0 < scale
    ensures var c := Converted(value, scale, publishedAt, policy);
            && (c.reason == Counted ==>
                  exists rule :: rule in policy.rules && rule.scale == scale && Applies(rule, publishedAt)
                                 && IsBy(c, rule, value))
            && (forall rule | OnlyRule(policy.rules, rule, scale, publishedAt) && InTable(rule.points, value) ::
                  c.reason == Counted && IsBy(c, rule, value))
  {
    hide InTable, Interpolated, Applies, Round;
    var rules := RulesForScale(policy.rules, scale);
    RulesForScaleFilters(policy.rules, scale);
    RuleForFinds(rules, publishedAt);
    var found := RuleFor(rules, publishedAt);
    if found.Some? && InTable(found.value.points, value) { RoundIsNearest(Interpolated(found.value.points, value)); }
    assert rules != [] ==> rules[0] in rules;
  }

  // ---------- Dates ----------

  lemma {:induction false} RulesForScaleFilters(rules: seq<Rule>, scale: real)
    ensures forall rule :: rule in RulesForScale(rules, scale) <==> rule in rules && rule.scale == scale
  {
    if rules != [] {
      RulesForScaleFilters(rules[1..], scale);
      assert rules == [rules[0]] + rules[1..];
    }
  }

  lemma {:induction false} RuleForFinds(rules: seq<Rule>, date: Option<int>)
    ensures var rule := RuleFor(rules, date);
            && (rule.Some? ==> rule.value in rules && Applies(rule.value, date))
            && (rule.None? ==> forall r :: r in rules ==> !Applies(r, date))
  {
    if rules != [] { RuleForFinds(rules[1..], date); }
  }

  predicate DatesInOrder(rule: Rule) {
    rule.from.Some? && rule.until.Some? ==> rule.from.value < rule.until.value
  }

  /** The overlap test of the settings schema. */
  predicate DatesOverlap(rule: Rule, other: Rule) {
    && (rule.from.None? || other.until.None? || rule.from.value < other.until.value)
    && (other.from.None? || rule.until.None? || other.from.value < rule.until.value)
  }

  /** The overlap test is exact: it finds the pairs of rules that share a date. */
  lemma DatesOverlapExactly(rule: Rule, other: Rule)
    requires DatesInOrder(rule) && DatesInOrder(other)
    ensures DatesOverlap(rule, other) <==> exists date: Option<int> :: Applies(rule, date) && Applies(other, date)
  {
    if DatesOverlap(rule, other) {
      var date :=
        if rule.from.Some? && (other.from.None? || other.from.value <= rule.from.value) then rule.from.value
        else if other.from.Some? then other.from.value
        else if rule.until.Some? && (other.until.None? || rule.until.value <= other.until.value) then
          rule.until.value - 1
        else if other.until.Some? then other.until.value - 1
        else 0;
      assert Applies(rule, Some(date)) && Applies(other, Some(date));
    }
  }

  /** What the settings schema accepts: dates in order, and no overlap within a scale. */
  ghost predicate ValidRules(rules: seq<Rule>) {
    && (forall rule :: rule in rules ==> DatesInOrder(rule))
    && (forall i, j :: 0 <= i < j < |rules| && rules[i].scale == rules[j].scale ==> !DatesOverlap(rules[j], rules[i]))
  }

  lemma OneRuleApplies(rules: seq<Rule>, rule: Rule, other: Rule, date: Option<int>)
    requires ValidRules(rules) && rule in rules && other in rules && rule.scale == other.scale
    requires Applies(rule, date) && Applies(other, date)
    ensures rule == other
  {
    var i :| 0 <= i < |rules| && rules[i] == rule;
    var j :| 0 <= j < |rules| && rules[j] == other;
    DatesOverlapExactly(rules[j], rules[i]);
    DatesOverlapExactly(rules[i], rules[j]);
  }

  /** Under valid settings the order of the rules does not matter. */
  lemma RuleOrderDoesNotMatter(native: Option<NativeScore>, publishedAt: Option<int>, policy: Policy, rules: seq<Rule>)
    requires ValidRules(policy.rules) && forall rule :: rule in policy.rules <==> rule in rules
    ensures ConvertExternalReviewScore(native, publishedAt, Some(policy)) ==
            ConvertExternalReviewScore(native, publishedAt, Some(policy.(rules := rules)))
  {
    hide InTable, Interpolated, Round, Applies;
    if native.Some? && native.value.scale.Finite? {
      var scale := native.value.scale.value;
      var mine, theirs := RulesForScale(policy.rules, scale), RulesForScale(rules, scale);
      RulesForScaleFilters(policy.rules, scale);
      RulesForScaleFilters(rules, scale);
      RuleForFinds(mine, publishedAt);
      RuleForFinds(theirs, publishedAt);
      assert mine == [] <==> theirs == [] by {
        assert mine != [] ==> mine[0] in mine;
        assert theirs != [] ==> theirs[0] in theirs;
      }
      var a, b := RuleFor(mine, publishedAt), RuleFor(theirs, publishedAt);
      if a.Some? && b.Some? { OneRuleApplies(policy.rules, a.value, b.value, publishedAt); }
    }
  }

  ghost predicate Covers(rule: Rule, value: real, scale: real, date: Option<int>) {
    && rule.scale == scale && Applies(rule, date)
    && rule.points != [] && rule.points[0].source <= value <= rule.points[|rule.points| - 1].source
  }

  /** Under valid settings a score counts exactly when a rule of its scale and date covers it. */
  lemma CountedExactly(value: real, scale: real, publishedAt: Option<int>, policy: Policy)
    requires policy.enabled && ValidRules(policy.rules) && 0.0 <= value <= scale && 0.0 < scale
    requires forall rule :: rule in policy.rules ==> Rising(rule.points)
    ensures Converted(value, scale, publishedAt, policy).reason == Counted <==>
            exists rule :: rule in policy.rules && Covers(rule, value, scale, publishedAt)
  {
    hide Interpolated, Round, Applies;
    var rules := RulesForScale(policy.rules, scale);
    RulesForScaleFilters(policy.rules, scale);
    RuleForFinds(rules, publishedAt);
    var found := RuleFor(rules, publishedAt);
    if found.Some? && found.value.points != [] {
      RisingTableCovers(found.value.points, value);
    }
    forall rule | rule in policy.rules && Covers(rule, value, scale, publishedAt)
      ensures rules != [] && found == Some(rule)
    {
      assert rule in rules;
      OneRuleApplies(policy.rules, rule, found.value, publishedAt);
    }
  }

  /** Adjacent rules: open before the first, open after the last, each ending where the next begins. */
  ghost predicate Adjacent(rules: seq<Rule>) {
    && rules != [] && rules[0].from.None? && rules[|rules| - 1].until.None?
    && (forall i :: 0 <= i < |rules| - 1 ==> rules[i].until.Some? && rules[i + 1].from == rules[i].until)
    && (forall i :: 0 <= i < |rules| ==> DatesInOrder(rules[i]))
  }

  lemma {:induction false} BoundariesRise(rules: seq<Rule>, i: nat, j: nat)
    requires Adjacent(rules) && i < j < |rules|
    ensures rules[i].until.Some? && rules[j].from.Some? && rules[i].until.value <= rules[j].from.value
  {
    if i + 1 < j {
      BoundariesRise(rules, i, j - 1);
      assert DatesInOrder(rules[j - 1]) && rules[j - 1 + 1].from == rules[j - 1].until;
    }
  }

  /** Adjacent rules select exactly one rule for each date. */
  lemma AdjacentRulesSelectOne(rules: seq<Rule>, date: int) returns (k: nat)
    requires Adjacent(rules)
    ensures k < |rules| && Applies(rules[k], Some(date)) && RuleFor(rules, Some(date)) == Some(rules[k])
    ensures forall i :: 0 <= i < |rules| && i != k ==> !Applies(rules[i], Some(date))
  {
    k := 0;
    while k < |rules| - 1 && !(date < rules[k].until.value)
      invariant k < |rules|
      invariant rules[k].from.Some? ==> date >= rules[k].from.value
    {
      k := k + 1;
    }
    assert Applies(rules[k], Some(date)) && rules[k] in rules;
    forall i | 0 <= i < |rules| && i != k ensures !Applies(rules[i], Some(date)) {
      if i < k { BoundariesRise(rules, i, k); }
      if k < i { BoundariesRise(rules, k, i); }
    }
    RuleForFinds(rules, Some(date));
    var i :| 0 <= i < |rules| && rules[i] == RuleFor(rules, Some(date)).value;
    assert i == k;
  }
}
