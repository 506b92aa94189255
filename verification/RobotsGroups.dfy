/** Which robots.txt groups the bot follows and what they say about a path
    (RFC 9309 sections 2.2.1 and 2.2.2). */
module RobotsGroups {
  import opened RobotsPattern

  datatype Directive = Allow | Disallow
  datatype Rule = Rule(directive: Directive, path: string)
  datatype Group = Group(userAgents: seq<string>, rules: seq<Rule>)
  datatype RobotsRules = Missing | Published(groups: seq<Group>)

  const ROBOTS_PRODUCT := "peatedbot"

  // ---------- Group selection ----------

  predicate AgentMatches(agent: string) {
    agent == "*" || agent <= ROBOTS_PRODUCT
  }

  function AgentSpecificity(agent: string): nat {
    if agent == "*" then 0 else |agent|
  }

  /** The largest specificity of a matching agent, or -1 when none matches. */
  function BestAgent(agents: seq<string>): int {
    if agents == [] then -1
    else
      var rest := BestAgent(agents[1..]);
      if AgentMatches(agents[0]) && AgentSpecificity(agents[0]) > rest then AgentSpecificity(agents[0]) else rest
  }

  lemma {:induction false} BestAgentIsMaximum(agents: seq<string>)
    ensures BestAgent(agents) >= -1
    ensures forall agent :: agent in agents && AgentMatches(agent) ==> AgentSpecificity(agent) <= BestAgent(agents)
    ensures BestAgent(agents) >= 0 ==>
              exists agent :: agent in agents && AgentMatches(agent) && AgentSpecificity(agent) == BestAgent(agents)
  {
    if agents != [] {
      BestAgentIsMaximum(agents[1..]);
      assert agents[0] in agents;
    }
  }

  function GroupRank(group: Group): int {
    BestAgent(group.userAgents)
  }

  function BestGroup(groups: seq<Group>): int {
    if groups == [] then -1
    else
      var front, last := groups[..|groups| - 1], groups[|groups| - 1];
      if GroupRank(last) > BestGroup(front) then GroupRank(last) else BestGroup(front)
  }

  lemma {:induction false} BestGroupIsMaximum(groups: seq<Group>)
    ensures BestGroup(groups) >= -1
    ensures forall group :: group in groups ==> GroupRank(group) <= BestGroup(groups)
    ensures BestGroup(groups) >= 0 ==> exists group :: group in groups && GroupRank(group) == BestGroup(groups)
  {
    if groups != [] {
      BestGroupIsMaximum(groups[..|groups| - 1]);
      assert groups == groups[..|groups| - 1] + [groups[|groups| - 1]];
    }
  }

  function WithSpecificity(groups: seq<Group>, specificity: int): seq<Group> {
    if groups == [] then []
    else
      var front, last := groups[..|groups| - 1], groups[|groups| - 1];
      WithSpecificity(front, specificity) + (if GroupRank(last) == specificity then [last] else [])
  }

  /** The groups with the globally longest agent match, in file order. */
  function Selected(groups: seq<Group>): seq<Group> {
    if BestGroup(groups) < 0 then [] else WithSpecificity(groups, BestGroup(groups))
  }

  lemma {:induction false} WithSpecificityMembers(groups: seq<Group>, specificity: int, group: Group)
    ensures group in WithSpecificity(groups, specificity) <==>
            group in groups && GroupRank(group) == specificity
  {
    if groups != [] {
      var front, last := groups[..|groups| - 1], groups[|groups| - 1];
      WithSpecificityMembers(front, specificity, group);
      assert groups == front + [last];
    }
  }

  lemma NoGroupAbove(groups: seq<Group>, specificity: int)
    requires specificity > BestGroup(groups)
    ensures WithSpecificity(groups, specificity) == []
  {
    if groups != [] {
      NoGroupAbove(groups[..|groups| - 1], specificity);
    }
  }

  /** A group is followed exactly when an agent of it matches and no group matches more specifically. */
  lemma SelectedExactly(groups: seq<Group>, group: Group)
    ensures group in Selected(groups) <==>
            && group in groups
            && GroupRank(group) >= 0
            && (forall other :: other in groups ==> GroupRank(other) <= GroupRank(group))
  {
    WithSpecificityMembers(groups, BestGroup(groups), group);
    BestGroupIsMaximum(groups);
  }

  /** One pass: a better match drops what was collected, an equal one is added. */
  method MatchingUserAgentGroups(groups: seq<Group>) returns (result: seq<Group>)
    ensures result == Selected(groups)
  {
    var specificity := -1;
    result := [];
    for i := 0 to |groups|
      invariant specificity == BestGroup(groups[..i])
      invariant result == Selected(groups[..i])
    {
      BestAgentIsMaximum(groups[i].userAgents);
      BestGroupIsMaximum(groups[..i]);
      var groupSpecificity := GroupRank(groups[i]);
      assert groups[..i + 1][..i] == groups[..i];
      if groupSpecificity == -1 { continue; }
      if groupSpecificity > specificity {
        NoGroupAbove(groups[..i], groupSpecificity);
        specificity := groupSpecificity;
        result := [];
      }
      if groupSpecificity == specificity {
        result := result + [groups[i]];
      }
    }
    assert groups[..|groups|] == groups;
  }

  // ---------- The verdict ----------

  function RulesOf(groups: seq<Group>): seq<Rule> {
    if groups == [] then [] else groups[0].rules + RulesOf(groups[1..])
  }

  ghost predicate Applies(groups: seq<Group>, path: string, rule: Rule) {
    rule in RulesOf(Selected(groups)) && Matches(path, rule.path)
  }

  /** RFC 9309 section 2.2.2: the most specific matching rule wins and an allow rule wins a tie.
      Each applicable disallow rule must be answered by an allow rule at least as specific. */
  ghost predicate Allowed(groups: seq<Group>, path: string) {
    forall disallow: Rule :: Applies(groups, path, disallow) && disallow.directive == Disallow ==>
      exists allow: Rule :: Answers(groups, path, allow, disallow)
  }

  ghost predicate Answers(groups: seq<Group>, path: string, allow: Rule, disallow: Rule) {
    Applies(groups, path, allow) && allow.directive == Allow && Specificity(allow.path) >= Specificity(disallow.path)
  }

  /** The order the rules are sorted by: longer first, allow before disallow. */
  predicate NotAfter(left: Rule, right: Rule) {
    Specificity(left.path) > Specificity(right.path)
    || (Specificity(left.path) == Specificity(right.path) && (left.directive == Allow || right.directive == Disallow))
  }

  ghost predicate SortedRules(rules: seq<Rule>) {
    rules == [] || (SortedRules(rules[1..]) && forall rule :: rule in rules[1..] ==> NotAfter(rules[0], rule))
  }

  function InsertRule(sorted: seq<Rule>, rule: Rule): (longer: seq<Rule>)
    ensures forall other :: other in longer <==> other in sorted || other == rule
  {
    if sorted == [] || !NotAfter(sorted[0], rule) then [rule] + sorted
    else [sorted[0]] + InsertRule(sorted[1..], rule)
  }

  function SortRules(rules: seq<Rule>): (sorted: seq<Rule>)
    ensures forall rule :: rule in sorted <==> rule in rules
  {
    if rules == [] then [] else InsertRule(SortRules(rules[..|rules| - 1]), rules[|rules| - 1])
  }

  lemma {:induction false} InsertKeepsSorted(sorted: seq<Rule>, rule: Rule)
    requires SortedRules(sorted)
    ensures SortedRules(InsertRule(sorted, rule))
  {
    var longer := InsertRule(sorted, rule);
    if sorted == [] || !NotAfter(sorted[0], rule) {
      assert longer[1..] == sorted;
      forall other | other in sorted ensures NotAfter(rule, other) {
        assert other == sorted[0] || other in sorted[1..];
      }
    } else {
      InsertKeepsSorted(sorted[1..], rule);
      assert longer[1..] == InsertRule(sorted[1..], rule);
    }
  }

  lemma {:induction false} SortRulesSorts(rules: seq<Rule>)
    ensures SortedRules(SortRules(rules))
  {
    if rules != [] {
      SortRulesSorts(rules[..|rules| - 1]);
      InsertKeepsSorted(SortRules(rules[..|rules| - 1]), rules[|rules| - 1]);
    }
  }

  /** However the sort breaks ties, the first rule of the sorted matches decides the same way. */
  lemma FirstRuleDecides(groups: seq<Group>, path: string, sorted: seq<Rule>)
    requires SortedRules(sorted)
    requires forall rule :: rule in sorted <==> Applies(groups, path, rule)
    ensures Allowed(groups, path) <==> (sorted == [] || sorted[0].directive == Allow)
  {
    if sorted != [] {
      assert Applies(groups, path, sorted[0]);
      if sorted[0].directive == Allow {
        forall disallow: Rule | Applies(groups, path, disallow) && disallow.directive == Disallow
          ensures Answers(groups, path, sorted[0], disallow)
        {
          assert disallow in sorted[1..];
        }
      } else {
        forall allow: Rule | Applies(groups, path, allow) ensures !Answers(groups, path, allow, sorted[0]) {
          assert allow == sorted[0] || allow in sorted[1..];
        }
      }
    }
  }

  method FilterMatching(rules: seq<Rule>, path: string) returns (matches: seq<Rule>)
    ensures forall rule :: rule in matches <==> rule in rules && Matches(path, rule.path)
  {
    matches := [];
    for i := 0 to |rules|
      invariant forall rule :: rule in matches <==> rule in rules[..i] && Matches(path, rule.path)
    {
      var fits := RobotsPatternMatches(path, rules[i].path);
      assert rules[..i + 1] == rules[..i] + [rules[i]];
      if fits { matches := matches + [rules[i]]; }
    }
    assert rules[..|rules|] == rules;
  }

  method RobotsAllowsUrl(state: RobotsRules, path: string) returns (allowed: bool)
    ensures allowed <==> state.Missing? || Allowed(state.groups, path)
  {
    if state.Missing? { return true; }
    var selected := MatchingUserAgentGroups(state.groups);
    var matches := FilterMatching(RulesOf(selected), path);
    var sorted := SortRules(matches);
    SortRulesSorts(matches);
    FirstRuleDecides(state.groups, path, sorted);
    allowed := sorted == [] || sorted[0].directive != Disallow;
  }

  /** The specificity of the best applicable rule with `directive`, or -1 when there is none. */
  ghost function BestRule(rules: seq<Rule>, path: string, directive: Directive): int {
    if rules == [] then -1
    else
      var rest := BestRule(rules[1..], path, directive);
      if rules[0].directive == directive && Matches(path, rules[0].path) && Specificity(rules[0].path) > rest
      then Specificity(rules[0].path) else rest
  }

  lemma {:induction false} BestRuleIsMaximum(rules: seq<Rule>, path: string, directive: Directive)
    ensures BestRule(rules, path, directive) >= -1
    ensures forall rule :: rule in rules && rule.directive == directive && Matches(path, rule.path)
                           ==> Specificity(rule.path) <= BestRule(rules, path, directive)
    ensures BestRule(rules, path, directive) >= 0 ==>
              exists rule :: rule in rules && rule.directive == directive && Matches(path, rule.path)
                             && Specificity(rule.path) == BestRule(rules, path, directive)
  {
    if rules != [] {
      BestRuleIsMaximum(rules[1..], path, directive);
      assert rules[0] in rules;
    }
  }

  /** A path is allowed exactly when the best allow is at least as specific as the best disallow;
      with no applicable rule both are -1. */
  lemma AllowedIsBestAllow(groups: seq<Group>, path: string)
    ensures var rules := RulesOf(Selected(groups));
            Allowed(groups, path) <==> BestRule(rules, path, Allow) >= BestRule(rules, path, Disallow)
  {
    var rules := RulesOf(Selected(groups));
    var worst := BestRule(rules, path, Disallow);
    BestRuleIsMaximum(rules, path, Allow);
    BestRuleIsMaximum(rules, path, Disallow);
    if Allowed(groups, path) && worst >= 0 {
      var disallow :| disallow in rules && disallow.directive == Disallow
                      && Matches(path, disallow.path) && Specificity(disallow.path) == worst;
      assert Applies(groups, path, disallow);
      var allow :| Answers(groups, path, allow, disallow);
    }
    if BestRule(rules, path, Allow) >= worst {
      forall disallow: Rule | Applies(groups, path, disallow) && disallow.directive == Disallow
        ensures exists allow :: Answers(groups, path, allow, disallow)
      {
        var allow :| allow in rules && allow.directive == Allow
                     && Matches(path, allow.path) && Specificity(allow.path) == BestRule(rules, path, Allow);
        assert Answers(groups, path, allow, disallow);
      }
    }
  }

  // ---------- Plain rules ----------

  /** The path begins with this rule's path, and the bot follows the rule. */
  ghost predicate Covers(groups: seq<Group>, path: string, rule: Rule) {
    rule in RulesOf(Selected(groups)) && rule.path <= path
  }

  /** Among plain rules the longest prefix of the path decides, and an allow rule wins a tie. */
  lemma LongestPlainRuleWins(groups: seq<Group>, path: string)
    requires forall rule :: rule in RulesOf(Selected(groups)) ==> Plain(rule.path)
    ensures Allowed(groups, path) <==>
            forall disallow: Rule :: Covers(groups, path, disallow) && disallow.directive == Disallow ==>
              exists allow: Rule ::
                Covers(groups, path, allow) && allow.directive == Allow && |allow.path| >= |disallow.path|
  {
    forall rule | rule in RulesOf(Selected(groups))
      ensures Applies(groups, path, rule) <==> Covers(groups, path, rule)
      ensures Specificity(rule.path) == |rule.path|
    {
      PlainMatchesPrefix(path, rule.path);
      PlainWeighsLength(rule.path);
    }
    if Allowed(groups, path) {
      forall disallow: Rule | Covers(groups, path, disallow) && disallow.directive == Disallow
        ensures exists allow: Rule ::
          Covers(groups, path, allow) && allow.directive == Allow && |allow.path| >= |disallow.path|
      {
        var allow: Rule :| Answers(groups, path, allow, disallow);
        assert Covers(groups, path, allow);
      }
    } else {
      var disallow: Rule :| Applies(groups, path, disallow) && disallow.directive == Disallow
                            && forall allow: Rule :: !Answers(groups, path, allow, disallow);
      forall allow: Rule | Covers(groups, path, allow) && allow.directive == Allow
        ensures |allow.path| < |disallow.path|
      {
        assert !Answers(groups, path, allow, disallow);
      }
      assert Covers(groups, path, disallow);
    }
  }

  /** A file with one allow and one disallow rule, both plain prefixes of the path: the longer one decides. */
  lemma LongerOfTwoWins(allow: string, disallow: string, path: string)
    requires Plain(allow) && Plain(disallow) && allow <= path && disallow <= path
    ensures var groups := [Group(["*"], [Rule(Disallow, disallow), Rule(Allow, allow)])];
            Allowed(groups, path) <==> |allow| >= |disallow|
  {
    var group := Group(["*"], [Rule(Disallow, disallow), Rule(Allow, allow)]);
    OneGroupIsFollowed(group);
    LongestPlainRuleWins([group], path);
    assert group.rules[0] in group.rules && group.rules[1] in group.rules;
    assert Covers([group], path, group.rules[0]) && Covers([group], path, group.rules[1]);
  }

  lemma OneGroupIsFollowed(group: Group)
    requires group.userAgents == ["*"]
    ensures RulesOf(Selected([group])) == group.rules
  {
    assert ["*"][1..] == [] && BestAgent(["*"]) == 0;
    assert [group][..0] == [] && BestGroup([group]) == 0;
    assert WithSpecificity([group][..0], 0) == [];
    assert WithSpecificity([group], 0) == [] + [group];
    assert RulesOf([group]) == group.rules + RulesOf([]);
  }

  /** A path under `/private` stays forbidden although the rest of the site is allowed. */
  lemma PrivatePathExample()
    ensures !Allowed([Group(["*"], [Rule(Disallow, "/private"), Rule(Allow, "/")])], "/private/x")
  {
    LongerOfTwoWins("/", "/private", "/private/x");
  }

  // ---------- Named groups come first ----------

  /** An agent line that names the bot: its product token, or the beginning of it. */
  predicate Names(agent: string) {
    agent != "" && agent <= ROBOTS_PRODUCT
  }

  ghost predicate IsNamed(groups: seq<Group>) {
    exists group, agent :: group in groups && agent in group.userAgents && Names(agent)
  }

  /** The longest name a group gives the bot. */
  ghost predicate NamedWith(group: Group, agent: string) {
    && agent in group.userAgents && Names(agent)
    && forall other :: other in group.userAgents && Names(other) ==> |other| <= |agent|
  }

  lemma RankOfNamed(group: Group)
    ensures forall agent :: agent in group.userAgents && Names(agent) ==> 0 < |agent| <= GroupRank(group)
    ensures GroupRank(group) > 0 ==>
              exists agent :: agent in group.userAgents && Names(agent) && |agent| == GroupRank(group)
    ensures GroupRank(group) >= 0 <==> exists agent :: agent in group.userAgents && (agent == "*" || Names(agent)
                                                                                   || agent == "")
  {
    BestAgentIsMaximum(group.userAgents);
    assert "*"[0] != ROBOTS_PRODUCT[0];
    if GroupRank(group) > 0 {
      var agent :| agent in group.userAgents && AgentMatches(agent) && AgentSpecificity(agent) == GroupRank(group);
      assert Names(agent);
    }
  }

  /** When some group names the bot, exactly the groups with the longest name are followed; a group for every bot is
      followed only when none does. */
  lemma NamedGroupsComeFirst(groups: seq<Group>, group: Group)
    requires forall g :: g in groups ==> "" !in g.userAgents
    ensures IsNamed(groups) ==>
              (group in Selected(groups) <==>
                && group in groups
                && exists agent :: NamedWith(group, agent)
                                   && forall g, other :: g in groups && other in g.userAgents && Names(other) ==>
                                        |other| <= |agent|)
    ensures !IsNamed(groups) ==> (group in Selected(groups) <==> group in groups && "*" in group.userAgents)
  {
    SelectedExactly(groups, group);
    forall g | g in groups
      ensures forall agent :: agent in g.userAgents && Names(agent) ==> 0 < |agent| <= GroupRank(g)
      ensures GroupRank(g) > 0 ==>
                exists agent :: agent in g.userAgents && Names(agent) && |agent| == GroupRank(g)
      ensures GroupRank(g) >= 0 <==> exists agent :: agent in g.userAgents && (agent == "*" || Names(agent))
    {
      RankOfNamed(g);
    }
    hide GroupRank, Selected;
  }

  // ---------- What does not change the verdict ----------

  lemma {:induction false} RulesOfMembers(groups: seq<Group>, rule: Rule)
    ensures rule in RulesOf(groups) <==> exists group :: group in groups && rule in group.rules
  {
    if groups != [] {
      RulesOfMembers(groups[1..], rule);
      if rule in RulesOf(groups) && rule !in groups[0].rules {
        var group :| group in groups[1..] && rule in group.rules;
        assert group in groups;
      }
    }
  }

  /** `right` has the same agents and rules as `left`, in any order. */
  ghost predicate SameGroup(left: Group, right: Group) {
    && (forall agent :: agent in left.userAgents <==> agent in right.userAgents)
    && (forall rule :: rule in left.rules <==> rule in right.rules)
  }

  ghost predicate EachHasATwin(groups: seq<Group>, others: seq<Group>) {
    forall k :: 0 <= k < |groups| ==> HasATwin(groups[k], others)
  }

  ghost predicate HasATwin(group: Group, others: seq<Group>) {
    exists j: nat :: j < |others| && SameGroup(group, others[j])
  }

  lemma SameGroupSameAgent(left: Group, right: Group)
    requires SameGroup(left, right)
    ensures GroupRank(left) == GroupRank(right)
  {
    BestAgentIsMaximum(left.userAgents);
    BestAgentIsMaximum(right.userAgents);
  }

  /** The k-th group is followed: it matches and no group matches more specifically. */
  ghost predicate FollowedAt(groups: seq<Group>, k: nat)
    requires k < |groups|
  {
    && GroupRank(groups[k]) >= 0
    && forall j :: 0 <= j < |groups| ==> GroupRank(groups[j]) <= GroupRank(groups[k])
  }

  lemma AppliesAt(groups: seq<Group>, path: string, rule: Rule)
    ensures Applies(groups, path, rule) <==>
            Matches(path, rule.path)
            && exists k: nat :: k < |groups| && FollowedAt(groups, k) && rule in groups[k].rules
  {
    RulesOfMembers(Selected(groups), rule);
    if rule in RulesOf(Selected(groups)) {
      var group :| group in Selected(groups) && rule in group.rules;
      SelectedExactly(groups, group);
      var k: nat :| k < |groups| && groups[k] == group;
      assert FollowedAt(groups, k);
    }
    if k: nat :| k < |groups| && FollowedAt(groups, k) && rule in groups[k].rules {
      SelectedExactly(groups, groups[k]);
    }
  }

  lemma TwinIsFollowedToo(groups: seq<Group>, others: seq<Group>, k: nat) returns (twin: nat)
    requires EachHasATwin(groups, others) && EachHasATwin(others, groups)
    requires k < |groups| && FollowedAt(groups, k)
    ensures twin < |others| && SameGroup(groups[k], others[twin]) && FollowedAt(others, twin)
  {
    assert HasATwin(groups[k], others);
    twin :| twin < |others| && SameGroup(groups[k], others[twin]);
    SameGroupSameAgent(groups[k], others[twin]);
    forall j | 0 <= j < |others|
      ensures GroupRank(others[j]) <= GroupRank(others[twin])
    {
      assert HasATwin(others[j], groups);
      var back: nat :| back < |groups| && SameGroup(others[j], groups[back]);
      SameGroupSameAgent(others[j], groups[back]);
    }
  }

  lemma TwinsApplyToo(groups: seq<Group>, others: seq<Group>, path: string, rule: Rule)
    requires EachHasATwin(groups, others) && EachHasATwin(others, groups)
    requires Applies(groups, path, rule)
    ensures Applies(others, path, rule)
  {
    AppliesAt(groups, path, rule);
    AppliesAt(others, path, rule);
    var k: nat :| k < |groups| && FollowedAt(groups, k) && rule in groups[k].rules;
    var twin := TwinIsFollowedToo(groups, others, k);
  }

  /** Reordering groups, agents or rules never changes the verdict. */
  lemma OrderDoesNotMatter(groups: seq<Group>, others: seq<Group>, path: string)
    requires EachHasATwin(groups, others) && EachHasATwin(others, groups)
    ensures Allowed(groups, path) <==> Allowed(others, path)
  {
    forall rule ensures Applies(groups, path, rule) <==> Applies(others, path, rule) {
      if Applies(groups, path, rule) { TwinsApplyToo(groups, others, path, rule); }
      if Applies(others, path, rule) { TwinsApplyToo(others, groups, path, rule); }
    }
    SameApplicableRules(groups, others, path);
  }

  lemma SameApplicableRules(groups: seq<Group>, others: seq<Group>, path: string)
    requires forall rule :: Applies(groups, path, rule) <==> Applies(others, path, rule)
    ensures Allowed(groups, path) <==> Allowed(others, path)
  {
    forall allow, disallow ensures Answers(groups, path, allow, disallow) <==> Answers(others, path, allow, disallow) {}
  }

  /** `groups` with `rule` inserted before position `at` of the i-th group. */
  function WithRule(groups: seq<Group>, i: nat, at: nat, rule: Rule): seq<Group>
    requires i < |groups| && at <= |groups[i].rules|
  {
    groups[i := groups[i].(rules := groups[i].rules[..at] + [rule] + groups[i].rules[at..])]
  }

  lemma AddedRuleKeepsFollowed(groups: seq<Group>, more: seq<Group>, k: nat)
    requires |more| == |groups| && k < |groups|
    requires forall j :: 0 <= j < |groups| ==> more[j].userAgents == groups[j].userAgents
    ensures FollowedAt(groups, k) <==> FollowedAt(more, k)
  {}

  lemma AddedRuleMembers(groups: seq<Group>, i: nat, at: nat, rule: Rule, k: nat, other: Rule)
    requires i < |groups| && at <= |groups[i].rules| && k < |groups|
    ensures other in WithRule(groups, i, at, rule)[k].rules <==>
            other in groups[k].rules || (k == i && other == rule)
  {
    var before := groups[i].rules;
    assert before == before[..at] + before[at..];
  }

  lemma AddedRuleApplies(groups: seq<Group>, i: nat, at: nat, rule: Rule, path: string, other: Rule)
    requires i < |groups| && at <= |groups[i].rules| && FollowedAt(groups, i)
    ensures Applies(WithRule(groups, i, at, rule), path, other) <==>
            Applies(groups, path, other) || (other == rule && Matches(path, rule.path))
  {
    var more := WithRule(groups, i, at, rule);
    AppliesAt(groups, path, other);
    AppliesAt(more, path, other);
    forall k: nat | k < |groups|
      ensures FollowedAt(groups, k) <==> FollowedAt(more, k)
      ensures other in more[k].rules <==> other in groups[k].rules || (k == i && other == rule)
    {
      AddedRuleKeepsFollowed(groups, more, k);
      AddedRuleMembers(groups, i, at, rule, k, other);
    }
    if Applies(groups, path, other) {
      var k: nat :| k < |groups| && FollowedAt(groups, k) && other in groups[k].rules;
      assert FollowedAt(more, k) && other in more[k].rules;
    }
    if other == rule && Matches(path, rule.path) {
      assert FollowedAt(more, i) && other in more[i].rules;
    }
  }

  /** A rule added to a followed group moves the verdict only towards its own directive. */
  lemma AddedRuleIsMonotone(groups: seq<Group>, i: nat, at: nat, rule: Rule, path: string)
    requires i < |groups| && at <= |groups[i].rules| && FollowedAt(groups, i)
    ensures rule.directive == Allow && Allowed(groups, path) ==> Allowed(WithRule(groups, i, at, rule), path)
    ensures rule.directive == Disallow && !Allowed(groups, path) ==> !Allowed(WithRule(groups, i, at, rule), path)
  {
    var more := WithRule(groups, i, at, rule);
    forall other ensures Applies(more, path, other) <==>
                         Applies(groups, path, other) || (other == rule && Matches(path, rule.path))
    {
      AddedRuleApplies(groups, i, at, rule, path, other);
    }
    if rule.directive == Allow && Allowed(groups, path) {
      forall disallow: Rule | Applies(more, path, disallow) && disallow.directive == Disallow
        ensures exists allow :: Answers(more, path, allow, disallow)
      {
        var allow :| Answers(groups, path, allow, disallow);
        assert Answers(more, path, allow, disallow);
      }
    }
    if rule.directive == Disallow && Allowed(more, path) {
      forall disallow: Rule | Applies(groups, path, disallow) && disallow.directive == Disallow
        ensures exists allow :: Answers(groups, path, allow, disallow)
      {
        var allow :| Answers(more, path, allow, disallow);
        assert Answers(groups, path, allow, disallow);
      }
    }
  }
}
