/** Writing groups back as a robots.txt file, and reading that file again. */
module RobotsRoundTrip {
  import opened RobotsGroups
  import opened RobotsParser

  // ---------- The canonical file of a group list ----------

  function DirectiveName(directive: Directive): string {
    match directive case Allow => "allow" case Disallow => "disallow"
  }

  function AgentText(agent: string): string {
    AGENT_FIELD + ": " + agent
  }

  function RuleText(rule: Rule): string {
    DirectiveName(rule.directive) + ": " + rule.path
  }

  function AgentTexts(agents: seq<string>): seq<string> {
    if agents == [] then [] else [AgentText(agents[0])] + AgentTexts(agents[1..])
  }

  function RuleTexts(rules: seq<Rule>): seq<string> {
    if rules == [] then [] else [RuleText(rules[0])] + RuleTexts(rules[1..])
  }

  function Texts(groups: seq<Group>): seq<string> {
    if groups == [] then []
    else AgentTexts(groups[0].userAgents) + RuleTexts(groups[0].rules) + Texts(groups[1..])
  }

  function File(lines: seq<string>): string {
    if lines == [] then "" else lines[0] + "\n" + File(lines[1..])
  }

  function Render(groups: seq<Group>): string {
    File(Texts(groups))
  }

  // ---------- Group lists a file can hold ----------

  /** A value that survives being written on a line: trimmed, on one line, and not read as a comment. */
  ghost predicate Writable(value: string) {
    Trimmed(value) && '\n' !in value && StripComment(value) == value
  }

  ghost predicate WritableGroup(group: Group) {
    && (forall agent :: agent in group.userAgents ==> Writable(agent))
    && (forall rule :: rule in group.rules ==> Writable(rule.path))
  }

  ghost predicate Canonical(groups: seq<Group>) {
    WellFormed(groups) && forall group :: group in groups ==> WritableGroup(group)
  }

  // ---------- One line ----------

  lemma {:induction false} StripCommentAfter(prefix: string, value: string)
    requires '#' !in prefix
    ensures StripComment(prefix + value) == prefix + StripComment(value)
  {
    hide OneLine;
    if prefix == "" {
      assert prefix + value == value;
    } else {
      var line := prefix + value;
      assert line[0] == prefix[0] && prefix[0] in prefix && line[1..] == prefix[1..] + value;
      assert StripComment(line) == [line[0]] + StripComment(line[1..]);
      StripCommentAfter(prefix[1..], value);
      assert prefix + StripComment(value) == [prefix[0]] + (prefix[1..] + StripComment(value));
    }
  }

  lemma TrimOfTrimmed(value: string)
    requires Trimmed(value)
    ensures Trim(value) == value && Trim(" " + value) == value
  {
    assert (" " + value)[1..] == value;
  }

  ghost predicate FieldName(name: string) {
    Trimmed(name) && Lower(name) == name && '#' !in name && ':' !in name && '\n' !in name
  }

  /** A name, a colon, a space and a writable value are read back as that name and value. */
  lemma FieldReadsBack(name: string, value: string)
    requires FieldName(name) && Writable(value)
    ensures ReadLine(name + ": " + value) == FieldMeaning(name, value)
  {
    var line := name + ": " + value;
    assert StripComment(line) == line by {
      assert line == (name + ": ") + value;
      StripCommentAfter(name + ": ", value);
    }
    assert Trim(line) == line by { TrimOfTrimmed(line); }
    assert ReadField(line) == FieldMeaning(name, value) by { FieldSplits(name, value); }
  }

  lemma FieldSplits(name: string, value: string)
    requires FieldName(name) && Trimmed(value)
    ensures ReadField(name + ": " + value) == FieldMeaning(name, value)
  {
    var line := name + ": " + value;
    assert line == name + [':'] + (" " + value);
    IndexOfCharAfter(name, ':', " " + value);
    assert line[..|name|] == name && line[|name| + 1..] == " " + value;
    TrimOfTrimmed(name);
    TrimOfTrimmed(value);
  }

  const AGENT_FIELD := "user-agent"

  lemma {:induction false} LowerFixes(s: string)
    requires forall i :: 0 <= i < |s| ==> !('A' <= s[i] <= 'Z')
    ensures Lower(s) == s
  {
    if s != "" { LowerFixes(s[1..]); }
  }

  lemma AgentFieldIsReadable()
    ensures FieldName(AGENT_FIELD)
  {
    hide Lower;
    LowerFixes(AGENT_FIELD);
  }

  lemma DirectivesAreReadable(directive: Directive)
    ensures FieldName(DirectiveName(directive))
  {
    hide Lower;
    LowerFixes(DirectiveName(directive));
  }

  lemma FieldIsALine(name: string, value: string)
    requires FieldName(name) && Writable(value)
    ensures FileLine(name + ": " + value)
  {
    var line := name + ": " + value;
    assert line[|line| - 1] == value[|value| - 1];
  }

  lemma AgentReadsBack(agent: string)
    requires Writable(agent) && Lower(agent) == agent
    ensures ReadLine(AgentText(agent)) == AgentLine(agent) && FileLine(AgentText(agent))
  {
    hide ReadLine, StripComment, IsWhite, Lower;
    AgentFieldIsReadable();
    FieldReadsBack(AGENT_FIELD, agent);
    FieldIsALine(AGENT_FIELD, agent);
  }

  lemma RuleReadsBack(rule: Rule)
    requires Writable(rule.path)
    ensures ReadLine(RuleText(rule)) == RuleLine(rule) && FileLine(RuleText(rule))
  {
    hide ReadLine, StripComment, IsWhite, Lower;
    DirectivesAreReadable(rule.directive);
    FieldReadsBack(DirectiveName(rule.directive), rule.path);
    FieldIsALine(DirectiveName(rule.directive), rule.path);
  }

  // ---------- Lines ----------

  ghost predicate FileLine(line: string) {
    '\n' !in line && DropReturn(line) == line
  }

  lemma {:induction false} LinesOfFile(lines: seq<string>)
    requires FileLines(lines)
    ensures Lines(File(lines)) == lines + [""]
  {
    if lines != [] {
      assert FileLine(lines[0]) && FileLines(lines[1..]);
      var body, rest := File(lines), File(lines[1..]);
      assert body == lines[0] + ['\n'] + rest;
      IndexOfCharAfter(lines[0], '\n', rest);
      assert body[..|lines[0]|] == lines[0] && body[|lines[0]| + 1..] == rest;
      LinesOfFile(lines[1..]);
      assert [lines[0]] + (lines[1..] + [""]) == lines + [""];
    }
  }

  // ---------- Groups ----------

  ghost predicate FileLines(lines: seq<string>) {
    forall line :: line in lines ==> FileLine(line)
  }

  lemma {:induction false} ReadLinesAppend(first: seq<string>, second: seq<string>)
    ensures ReadLines(first + second) == ReadLines(first) + ReadLines(second)
  {
    hide ReadLine, StripComment, IsWhite, Lower, DropReturn;
    if first == [] {
      assert first + second == second;
    } else {
      assert (first + second)[0] == first[0] && (first + second)[1..] == first[1..] + second;
      assert ReadLines(first + second) == [ReadLine(first[0])] + ReadLines(first[1..] + second);
      ReadLinesAppend(first[1..], second);
    }
  }

  lemma {:induction false} AddLinesAppend(groups: seq<Group>, first: seq<Meaning>, second: seq<Meaning>)
    ensures AddLines(groups, first + second) == AddLines(AddLines(groups, first), second)
    decreases |first|
  {
    if first == [] {
      assert first + second == second;
    } else {
      AddLinesAppend(AddLine(groups, first[0]), first[1..], second);
      assert (first + second)[1..] == first[1..] + second;
    }
  }

  lemma NoLines(groups: seq<Group>)
    ensures AddLines(groups, ReadLines([])) == groups
  {}

  lemma FirstLine(groups: seq<Group>, line: string, lines: seq<string>)
    ensures AddLines(groups, ReadLines([line] + lines)) == AddLines(AddLine(groups, ReadLine(line)), ReadLines(lines))
  {
    hide ReadLine, AddLine;
    assert ([line] + lines)[1..] == lines;
  }

  /** Agent lines after an open group without rules all join that group. */
  lemma {:induction false} AddAgents(groups: seq<Group>, done: seq<string>, agents: seq<string>)
    requires forall agent :: agent in agents ==> Writable(agent) && Lower(agent) == agent
    ensures AddLines(groups + [Group(done, [])], ReadLines(AgentTexts(agents)))
            == groups + [Group(done + agents, [])]
    ensures FileLines(AgentTexts(agents))
    decreases |agents|
  {
    hide ReadLine, ReadLines, AddLines, Writable, Lower, FileLine;
    if agents == [] {
      assert done + agents == done;
      NoLines(groups + [Group(done, [])]);
    } else {
      AgentReadsBack(agents[0]);
      FirstLine(groups + [Group(done, [])], AgentText(agents[0]), AgentTexts(agents[1..]));
      AddAgents(groups, done + [agents[0]], agents[1..]);
      assert AddLine(groups + [Group(done, [])], AgentLine(agents[0])) == groups + [Group(done + [agents[0]], [])];
      assert done + [agents[0]] + agents[1..] == done + agents;
    }
  }

  lemma {:induction false} AddRules(groups: seq<Group>, agents: seq<string>, done: seq<Rule>, rules: seq<Rule>)
    requires forall rule :: rule in rules ==> Writable(rule.path)
    ensures AddLines(groups + [Group(agents, done)], ReadLines(RuleTexts(rules)))
            == groups + [Group(agents, done + rules)]
    ensures FileLines(RuleTexts(rules))
    decreases |rules|
  {
    hide ReadLine, ReadLines, AddLines, Writable, FileLine;
    if rules == [] {
      assert done + rules == done;
      NoLines(groups + [Group(agents, done)]);
    } else {
      RuleReadsBack(rules[0]);
      FirstLine(groups + [Group(agents, done)], RuleText(rules[0]), RuleTexts(rules[1..]));
      AddRules(groups, agents, done + [rules[0]], rules[1..]);
      assert AddLine(groups + [Group(agents, done)], RuleLine(rules[0])) == groups + [Group(agents, done + [rules[0]])];
      assert done + [rules[0]] + rules[1..] == done + rules;
    }
  }

  lemma OpenGroup(groups: seq<Group>, agents: seq<string>)
    requires agents != [] && forall agent :: agent in agents ==> Writable(agent) && Lower(agent) == agent
    requires groups == [] || groups[|groups| - 1].rules != []
    ensures AddLines(groups, ReadLines(AgentTexts(agents))) == groups + [Group(agents, [])]
    ensures FileLines(AgentTexts(agents))
  {
    hide ReadLine, ReadLines, AddLines, Writable, Lower, FileLine;
    AgentReadsBack(agents[0]);
    FirstLine(groups, AgentText(agents[0]), AgentTexts(agents[1..]));
    assert AddLine(groups, AgentLine(agents[0])) == groups + [Group([agents[0]], [])];
    AddAgents(groups, [agents[0]], agents[1..]);
    assert [agents[0]] + agents[1..] == agents;
  }

  /** The lines of one group add exactly that group, when the open group is finished. */
  lemma AddGroup(groups: seq<Group>, group: Group)
    requires WellFormedGroup(group) && WritableGroup(group)
    requires groups == [] || groups[|groups| - 1].rules != []
    ensures AddLines(groups, ReadLines(AgentTexts(group.userAgents) + RuleTexts(group.rules))) == groups + [group]
    ensures FileLines(AgentTexts(group.userAgents) + RuleTexts(group.rules))
  {
    hide ReadLine, StripComment, IsWhite, Lower, DropReturn;
    var agents, rules := group.userAgents, group.rules;
    ReadLinesAppend(AgentTexts(agents), RuleTexts(rules));
    AddLinesAppend(groups, ReadLines(AgentTexts(agents)), ReadLines(RuleTexts(rules)));
    OpenGroup(groups, agents);
    AddRules(groups, agents, [], rules);
    assert [] + rules == rules;
  }

  lemma CanonicalParts(groups: seq<Group>)
    requires Canonical(groups) && groups != []
    ensures WellFormedGroup(groups[0]) && WritableGroup(groups[0]) && Canonical(groups[1..])
    ensures |groups| > 1 ==> groups[0].rules != []
  {
    hide WellFormedGroup, WritableGroup;
    forall group | group in groups[1..] ensures group in groups {}
  }

  lemma {:induction false} AddGroups(done: seq<Group>, groups: seq<Group>)
    requires Canonical(groups)
    requires done == [] || groups == [] || done[|done| - 1].rules != []
    ensures AddLines(done, ReadLines(Texts(groups))) == done + groups
    ensures FileLines(Texts(groups))
    decreases |groups|
  {
    hide ReadLine, ReadLines, AddLines, AgentTexts, RuleTexts, Canonical, WellFormedGroup, WritableGroup, FileLine;
    if groups == [] {
      assert done + groups == done;
      NoLines(done);
    } else {
      var first, rest := AgentTexts(groups[0].userAgents) + RuleTexts(groups[0].rules), Texts(groups[1..]);
      CanonicalParts(groups);
      AddGroup(done, groups[0]);
      ReadLinesAppend(first, rest);
      AddLinesAppend(done, ReadLines(first), ReadLines(rest));
      AddGroups(done + [groups[0]], groups[1..]);
      assert done + [groups[0]] + groups[1..] == done + groups;
    }
  }

  lemma EmptyLineSaysNothing()
    ensures ReadLines([""]) == [Nothing]
  {
    assert [""][1..] == [];
  }

  /** Parsing the canonical file of a canonical group list gives that list back. */
  lemma ParseUndoesRender(groups: seq<Group>)
    requires Canonical(groups)
    ensures ParsedGroups(Render(groups)) == groups
  {
    hide ReadLine, StripComment, IsWhite, Lower, DropReturn;
    var texts := Texts(groups);
    AddGroups([], groups);
    LinesOfFile(texts);
    ReadLinesAppend(texts, [""]);
    AddLinesAppend([], ReadLines(texts), ReadLines([""]));
    EmptyLineSaysNothing();
  }

  // ---------- Parse results are canonical ----------

  /** No line terminator other than the ends of lines. */
  ghost predicate PlainBody(body: string) {
    forall line :: line in Lines(body) ==> OneLine(line)
  }

  lemma {:induction false} StripCommentOfPlain(line: string)
    requires OneLine(line)
    ensures '#' !in StripComment(line) && OneLine(StripComment(line))
  {
    if line != "" && line[0] != '#' {
      assert OneLine(line[1..]);
      StripCommentOfPlain(line[1..]);
    }
  }

  lemma {:induction false} NothingToStrip(value: string)
    requires '#' !in value
    ensures StripComment(value) == value
  {
    if value != "" { NothingToStrip(value[1..]); }
  }

  ghost predicate WritableMeaning(meaning: Meaning) {
    && (meaning.AgentLine? ==> Writable(meaning.agent))
    && (meaning.RuleLine? ==> Writable(meaning.rule.path))
  }

  lemma PlainFieldIsWritable(field: string, value: string)
    requires OneLine(value) && '#' !in value && (value == "" || Trimmed(value))
    ensures WritableMeaning(FieldMeaning(field, value))
  {
    LowerStable(value);
    if value != "" { LowerKeepsTrimmed(value); }
    NothingToStrip(value);
    NothingToStrip(Lower(value));
  }

  lemma PlainFieldLineIsWritable(line: string)
    requires OneLine(line) && '#' !in line
    ensures WritableMeaning(ReadField(line))
  {
    hide Trim, FieldMeaning, Lower, Writable;
    var separator := IndexOfChar(line, ':');
    if separator >= 0 {
      IndexOfCharFinds(line, ':');
      TrimTrims(line[separator + 1..]);
      PlainFieldIsWritable(Lower(Trim(line[..separator])), Trim(line[separator + 1..]));
    }
  }

  lemma PlainLineIsWritable(line: string)
    requires OneLine(line)
    ensures WritableMeaning(ReadLine(line))
  {
    hide Trim, StripComment, ReadField;
    StripCommentOfPlain(line);
    TrimTrims(StripComment(line));
    PlainFieldLineIsWritable(Trim(StripComment(line)));
  }

  lemma AddLineKeepsWritable(groups: seq<Group>, meaning: Meaning)
    requires forall group :: group in groups ==> WritableGroup(group)
    requires WritableMeaning(meaning)
    ensures forall group :: group in AddLine(groups, meaning) ==> WritableGroup(group)
  {
    var more := AddLine(groups, meaning);
    if groups != [] { assert groups[|groups| - 1] in groups; }
    forall i | 0 <= i < |more| ensures WritableGroup(more[i]) {
      assert i < |groups| ==> groups[i] in groups;
    }
  }

  lemma {:induction false} AddLinesKeepsWritable(groups: seq<Group>, lines: seq<string>)
    requires forall group :: group in groups ==> WritableGroup(group)
    requires forall line :: line in lines ==> OneLine(line)
    ensures forall group :: group in AddLines(groups, ReadLines(lines)) ==> WritableGroup(group)
    decreases |lines|
  {
    if lines != [] {
      PlainLineIsWritable(lines[0]);
      AddLineKeepsWritable(groups, ReadLine(lines[0]));
      AddLinesKeepsWritable(AddLine(groups, ReadLine(lines[0])), lines[1..]);
    }
  }

  // ---------- Which group lists survive being written ----------

  function Weight(value: string, stripped: bool): nat {
    if stripped then |StripComment(value)| else |value|
  }

  function AgentsWeight(agents: seq<string>, stripped: bool): nat {
    if agents == [] then 0 else Weight(agents[0], stripped) + AgentsWeight(agents[1..], stripped)
  }

  function RulesWeight(rules: seq<Rule>, stripped: bool): nat {
    if rules == [] then 0 else Weight(rules[0].path, stripped) + RulesWeight(rules[1..], stripped)
  }

  /** The length of all agents and paths, as they are or as they read on a line. */
  function TotalWeight(groups: seq<Group>, stripped: bool): nat {
    if groups == [] then 0
    else AgentsWeight(groups[0].userAgents, stripped) + RulesWeight(groups[0].rules, stripped)
         + TotalWeight(groups[1..], stripped)
  }

  function MeaningWeight(meaning: Meaning): nat {
    match meaning
    case Nothing => 0
    case AgentLine(agent) => |agent|
    case RuleLine(rule) => |rule.path|
  }

  function MeaningsWeight(meanings: seq<Meaning>): nat {
    if meanings == [] then 0 else MeaningWeight(meanings[0]) + MeaningsWeight(meanings[1..])
  }

  lemma {:induction false} StrippedIsShorter(value: string)
    ensures |StripComment(value)| <= |value| && (|StripComment(value)| == |value| <==> StripComment(value) == value)
  {
    hide OneLine;
    if value != "" { StrippedIsShorter(value[1..]); }
  }

  lemma {:induction false} AgentsLoseWeight(agents: seq<string>)
    ensures AgentsWeight(agents, true) <= AgentsWeight(agents, false)
    ensures (exists agent :: agent in agents && StripComment(agent) != agent) ==>
              AgentsWeight(agents, true) < AgentsWeight(agents, false)
  {
    hide StripComment;
    if agents != [] {
      StrippedIsShorter(agents[0]);
      AgentsLoseWeight(agents[1..]);
      assert agents == [agents[0]] + agents[1..];
    }
  }

  lemma {:induction false} RulesLoseWeight(rules: seq<Rule>)
    ensures RulesWeight(rules, true) <= RulesWeight(rules, false)
    ensures (exists rule :: rule in rules && StripComment(rule.path) != rule.path) ==>
              RulesWeight(rules, true) < RulesWeight(rules, false)
  {
    hide StripComment;
    if rules != [] {
      StrippedIsShorter(rules[0].path);
      RulesLoseWeight(rules[1..]);
      assert rules == [rules[0]] + rules[1..];
    }
  }

  /** No agent or path would lose a comment if it stood on a line of its own. */
  ghost predicate CommentFree(group: Group) {
    && (forall agent :: agent in group.userAgents ==> StripComment(agent) == agent)
    && (forall rule :: rule in group.rules ==> StripComment(rule.path) == rule.path)
  }

  lemma {:induction false} CommentsLoseWeight(groups: seq<Group>)
    ensures TotalWeight(groups, true) <= TotalWeight(groups, false)
    ensures (exists group :: group in groups && !CommentFree(group)) ==>
              TotalWeight(groups, true) < TotalWeight(groups, false)
  {
    hide StripComment;
    if groups != [] {
      AgentsLoseWeight(groups[0].userAgents);
      RulesLoseWeight(groups[0].rules);
      CommentsLoseWeight(groups[1..]);
      assert groups == [groups[0]] + groups[1..];
    }
  }

  // ---------- What is read back weighs no more than what was written ----------

  lemma {:induction false} TrimEndIsPrefix(s: string)
    ensures TrimEnd(s) <= s
  {
    if s != "" && IsWhite(s[|s| - 1]) { TrimEndIsPrefix(s[..|s| - 1]); }
  }

  lemma {:induction false} TrimStartIsShorter(s: string)
    ensures |TrimStart(s)| <= |s| && (s != "" && IsWhite(s[0]) ==> |TrimStart(s)| < |s|)
  {
    if s != "" && IsWhite(s[0]) { TrimStartIsShorter(s[1..]); }
  }

  lemma TrimIsShorter(s: string)
    ensures |Trim(s)| <= |s| && (s != "" && s[0] == ' ' ==> |Trim(s)| < |s|)
  {
    TrimStartIsShorter(s);
    TrimEndIsPrefix(TrimStart(s));
  }

  /** Trimming from the right stops at the colon at the latest. */
  lemma {:induction false} TrimEndKeepsColon(head: string, tail: string)
    ensures head + ":" <= TrimEnd(head + ":" + tail) <= head + ":" + tail
  {
    var s := head + ":" + tail;
    if tail == "" {
      assert s == head + ":";
    } else if IsWhite(s[|s| - 1]) {
      assert s[..|s| - 1] == head + ":" + tail[..|tail| - 1];
      TrimEndKeepsColon(head, tail[..|tail| - 1]);
    }
  }

  lemma ReadFieldWeight(name: string, rest: string)
    requires ':' !in name
    ensures MeaningWeight(ReadField(name + ":" + rest)) <= |Trim(rest)|
  {
    hide Trim;
    var line := name + ":" + rest;
    assert line == name + [':'] + rest;
    IndexOfCharAfter(name, ':', rest);
    assert line[|name| + 1..] == rest;
  }

  lemma StrippedField(name: string, value: string)
    requires FieldName(name)
    ensures StripComment(name + ": " + value) == name + ":" + (" " + StripComment(value))
  {
    hide StripComment;
    assert name + ": " + value == (name + ": ") + value;
    StripCommentAfter(name + ": ", value);
    assert (name + ": ") + StripComment(value) == name + ":" + (" " + StripComment(value));
  }

  lemma TrimmedField(name: string, tail: string) returns (rest: string)
    requires FieldName(name)
    ensures Trim(name + ":" + tail) == name + ":" + rest && rest <= tail
  {
    hide Lower, TrimEnd;
    var line := name + ":" + tail;
    TrimEndKeepsColon(name, tail);
    assert TrimStart(line) == line by { assert line[0] == name[0]; }
    rest := Trim(line)[|name| + 1..];
    assert Trim(line) == name + ":" + rest;
    assert line[..|name| + 1 + |rest|] == name + ":" + tail[..|rest|];
  }

  lemma FieldWeight(name: string, value: string)
    requires FieldName(name) && Trimmed(value)
    ensures MeaningWeight(ReadLine(name + ": " + value)) <= |StripComment(value)|
  {
    hide ReadField, FieldMeaning, Trim, StripComment;
    StrippedField(name, value);
    var rest := TrimmedField(name, " " + StripComment(value));
    ReadFieldWeight(name, rest);
    TrimIsShorter(rest);
    assert rest != "" ==> rest[0] == ' ';
  }

  lemma {:induction false} AgentTextsWeight(agents: seq<string>)
    requires forall agent :: agent in agents ==> Trimmed(agent)
    ensures MeaningsWeight(ReadLines(AgentTexts(agents))) <= AgentsWeight(agents, true)
  {
    hide ReadLine, StripComment, Trimmed;
    if agents != [] {
      AgentFieldIsReadable();
      FieldWeight(AGENT_FIELD, agents[0]);
      assert AgentTexts(agents)[1..] == AgentTexts(agents[1..]);
      AgentTextsWeight(agents[1..]);
    }
  }

  lemma {:induction false} RuleTextsWeight(rules: seq<Rule>)
    requires forall rule :: rule in rules ==> Trimmed(rule.path)
    ensures MeaningsWeight(ReadLines(RuleTexts(rules))) <= RulesWeight(rules, true)
  {
    hide ReadLine, StripComment, Trimmed;
    if rules != [] {
      DirectivesAreReadable(rules[0].directive);
      FieldWeight(DirectiveName(rules[0].directive), rules[0].path);
      assert RuleTexts(rules)[1..] == RuleTexts(rules[1..]);
      RuleTextsWeight(rules[1..]);
    }
  }

  lemma {:induction false} MeaningsWeightAppend(first: seq<Meaning>, second: seq<Meaning>)
    ensures MeaningsWeight(first + second) == MeaningsWeight(first) + MeaningsWeight(second)
  {
    if first == [] {
      assert first + second == second;
    } else {
      MeaningsWeightAppend(first[1..], second);
      assert (first + second)[1..] == first[1..] + second;
    }
  }

  lemma {:induction false} TextsWeight(groups: seq<Group>)
    requires forall group :: group in groups ==> WellFormedGroup(group)
    ensures MeaningsWeight(ReadLines(Texts(groups))) <= TotalWeight(groups, true)
  {
    hide ReadLine, ReadLines, StripComment, Trimmed, Lower;
    if groups == [] {
      ReadNoLines();
    } else {
      var agents, rules := AgentTexts(groups[0].userAgents), RuleTexts(groups[0].rules);
      assert groups[0] in groups;
      AgentTextsWeight(groups[0].userAgents);
      RuleTextsWeight(groups[0].rules);
      TextsWeight(groups[1..]);
      ReadLinesAppend(agents, rules);
      ReadLinesAppend(agents + rules, Texts(groups[1..]));
      MeaningsWeightAppend(ReadLines(agents), ReadLines(rules));
      MeaningsWeightAppend(ReadLines(agents + rules), ReadLines(Texts(groups[1..])));
    }
  }

  lemma ReadNoLines()
    ensures ReadLines([]) == []
  {}

  lemma {:induction false} GroupsWeightAppend(groups: seq<Group>, last: Group)
    ensures TotalWeight(groups + [last], false) ==
            TotalWeight(groups, false) + AgentsWeight(last.userAgents, false) + RulesWeight(last.rules, false)
  {
    if groups == [] {
      assert groups + [last] == [last] && [last][1..] == [];
    } else {
      GroupsWeightAppend(groups[1..], last);
      assert (groups + [last])[1..] == groups[1..] + [last];
    }
  }

  lemma {:induction false} AgentAppended(agents: seq<string>, agent: string)
    ensures AgentsWeight(agents + [agent], false) == AgentsWeight(agents, false) + |agent|
  {
    if agents == [] {
      assert agents + [agent] == [agent] && [agent][1..] == [];
    } else {
      AgentAppended(agents[1..], agent);
      assert (agents + [agent])[1..] == agents[1..] + [agent];
    }
  }

  lemma {:induction false} RuleAppended(rules: seq<Rule>, rule: Rule)
    ensures RulesWeight(rules + [rule], false) == RulesWeight(rules, false) + |rule.path|
  {
    if rules == [] {
      assert rules + [rule] == [rule] && [rule][1..] == [];
    } else {
      RuleAppended(rules[1..], rule);
      assert (rules + [rule])[1..] == rules[1..] + [rule];
    }
  }

  lemma AddLineWeight(groups: seq<Group>, meaning: Meaning)
    ensures TotalWeight(AddLine(groups, meaning), false) <= TotalWeight(groups, false) + MeaningWeight(meaning)
  {
    hide TotalWeight, AgentsWeight, RulesWeight;
    var n := |groups|;
    if meaning.AgentLine? {
      AgentAppended([], meaning.agent);
      assert [] + [meaning.agent] == [meaning.agent];
      GroupsWeightAppend(groups, Group([meaning.agent], []));
      EmptyWeights();
    }
    if n > 0 {
      var front, last := groups[..n - 1], groups[n - 1];
      assert groups == front + [last];
      GroupsWeightAppend(front, last);
      if meaning.AgentLine? {
        AgentAppended(last.userAgents, meaning.agent);
        GroupsWeightAppend(front, last.(userAgents := last.userAgents + [meaning.agent]));
        assert groups[n - 1 := last.(userAgents := last.userAgents + [meaning.agent])]
            == front + [last.(userAgents := last.userAgents + [meaning.agent])];
      }
      if meaning.RuleLine? {
        RuleAppended(last.rules, meaning.rule);
        GroupsWeightAppend(front, last.(rules := last.rules + [meaning.rule]));
        assert groups[n - 1 := last.(rules := last.rules + [meaning.rule])]
            == front + [last.(rules := last.rules + [meaning.rule])];
      }
    }
  }

  lemma EmptyWeights()
    ensures AgentsWeight([], false) == 0 && RulesWeight([], false) == 0 && TotalWeight([], false) == 0
  {}

  lemma {:induction false} AddLinesWeight(groups: seq<Group>, meanings: seq<Meaning>)
    ensures TotalWeight(AddLines(groups, meanings), false) <= TotalWeight(groups, false) + MeaningsWeight(meanings)
    decreases |meanings|
  {
    hide TotalWeight, AddLine, MeaningWeight;
    if meanings != [] {
      AddLineWeight(groups, meanings[0]);
      AddLinesWeight(AddLine(groups, meanings[0]), meanings[1..]);
    }
  }

  // ---------- The exact condition ----------

  ghost predicate WithoutNewlines(group: Group) {
    && (forall agent :: agent in group.userAgents ==> '\n' !in agent)
    && (forall rule :: rule in group.rules ==> '\n' !in rule.path)
  }

  lemma {:induction false} AgentTextsAreLines(agents: seq<string>)
    requires forall agent :: agent in agents ==> Trimmed(agent) && '\n' !in agent
    ensures FileLines(AgentTexts(agents))
  {
    hide Lower;
    if agents != [] {
      AgentFieldIsReadable();
      FieldLine(AGENT_FIELD, agents[0]);
      AgentTextsAreLines(agents[1..]);
    }
  }

  lemma {:induction false} RuleTextsAreLines(rules: seq<Rule>)
    requires forall rule :: rule in rules ==> Trimmed(rule.path) && '\n' !in rule.path
    ensures FileLines(RuleTexts(rules))
  {
    hide Lower;
    if rules != [] {
      DirectivesAreReadable(rules[0].directive);
      FieldLine(DirectiveName(rules[0].directive), rules[0].path);
      RuleTextsAreLines(rules[1..]);
    }
  }

  lemma FieldLine(name: string, value: string)
    requires FieldName(name) && Trimmed(value) && '\n' !in value
    ensures FileLine(name + ": " + value)
  {
    var line := name + ": " + value;
    assert line[|line| - 1] == value[|value| - 1];
  }

  lemma {:induction false} TextsAreLines(groups: seq<Group>)
    requires forall group :: group in groups ==> WellFormedGroup(group) && WithoutNewlines(group)
    ensures FileLines(Texts(groups))
  {
    hide Lower, Trimmed, FileLine;
    if groups != [] {
      assert groups[0] in groups;
      AgentTextsAreLines(groups[0].userAgents);
      RuleTextsAreLines(groups[0].rules);
      TextsAreLines(groups[1..]);
    }
  }

  /** Well-formed groups are read back from their file exactly when no value would lose a comment there. */
  lemma RoundTripExactly(groups: seq<Group>)
    requires WellFormed(groups) && forall group :: group in groups ==> WithoutNewlines(group)
    ensures ParsedGroups(Render(groups)) == groups <==> forall group :: group in groups ==> CommentFree(group)
  {
    hide ReadLine, ReadLines, StripComment, IsWhite, Lower, DropReturn, AddLines, FileLine, Texts, TotalWeight;
    if forall group :: group in groups ==> CommentFree(group) {
      assert Canonical(groups);
      ParseUndoesRender(groups);
    } else {
      var texts := Texts(groups);
      TextsAreLines(groups);
      LinesOfFile(texts);
      ReadLinesAppend(texts, [""]);
      EmptyLineSaysNothing();
      MeaningsWeightAppend(ReadLines(texts), [Nothing]);
      assert MeaningsWeight([Nothing]) == 0 by { assert [Nothing][1..] == []; }
      AddLinesWeight([], ReadLines(Lines(File(texts))));
      EmptyWeights();
      TextsWeight(groups);
      CommentsLoseWeight(groups);
    }
  }

  lemma {:induction false} LinesHaveNoNewline(body: string)
    ensures forall line :: line in Lines(body) ==> '\n' !in line
    decreases |body|
  {
    IndexOfCharFinds(body, '\n');
    var i := IndexOfChar(body, '\n');
    if i >= 0 { LinesHaveNoNewline(body[i + 1..]); }
  }

  ghost predicate MeaningWithoutNewline(meaning: Meaning) {
    && (meaning.AgentLine? ==> '\n' !in meaning.agent)
    && (meaning.RuleLine? ==> '\n' !in meaning.rule.path)
  }

  lemma {:induction false} StripCommentKeeps(line: string)
    ensures forall c :: c in StripComment(line) ==> c in line
  {
    hide OneLine;
    if line != "" { StripCommentKeeps(line[1..]); }
  }

  lemma ReadFieldWithoutNewline(line: string)
    requires '\n' !in line
    ensures MeaningWithoutNewline(ReadField(line))
  {
    hide Trim, Lower;
    var separator := IndexOfChar(line, ':');
    if separator >= 0 {
      IndexOfCharFinds(line, ':');
      TrimTrims(line[separator + 1..]);
      LowerStable(Trim(line[separator + 1..]));
    }
  }

  lemma ReadLineWithoutNewline(line: string)
    requires '\n' !in line
    ensures MeaningWithoutNewline(ReadLine(line))
  {
    hide Trim, StripComment, ReadField;
    StripCommentKeeps(line);
    TrimTrims(StripComment(line));
    ReadFieldWithoutNewline(Trim(StripComment(line)));
  }

  lemma {:induction false} AddLinesWithoutNewline(groups: seq<Group>, lines: seq<string>)
    requires forall group :: group in groups ==> WithoutNewlines(group)
    requires forall line :: line in lines ==> '\n' !in line
    ensures forall group :: group in AddLines(groups, ReadLines(lines)) ==> WithoutNewlines(group)
    decreases |lines|
  {
    hide ReadLine;
    if lines != [] {
      ReadLineWithoutNewline(lines[0]);
      AddLineWithoutNewline(groups, ReadLine(lines[0]));
      AddLinesWithoutNewline(AddLine(groups, ReadLine(lines[0])), lines[1..]);
    }
  }

  lemma AddLineWithoutNewline(groups: seq<Group>, meaning: Meaning)
    requires forall group :: group in groups ==> WithoutNewlines(group)
    requires MeaningWithoutNewline(meaning)
    ensures forall group :: group in AddLine(groups, meaning) ==> WithoutNewlines(group)
  {
    var more := AddLine(groups, meaning);
    if groups != [] { assert groups[|groups| - 1] in groups; }
    forall i | 0 <= i < |more| ensures WithoutNewlines(more[i]) {
      assert i < |groups| ==> groups[i] in groups;
    }
  }

  /** Whatever the file holds, writing what was parsed and parsing again gives the same exactly when no parsed value
      would lose a comment. Only a stray carriage return or U+2028/2029 can leave such a value. */
  lemma ReparseExactly(body: string)
    ensures ParsedGroups(Render(ParsedGroups(body))) == ParsedGroups(body) <==>
            forall group :: group in ParsedGroups(body) ==> CommentFree(group)
  {
    hide ReadLine, AddLines, CommentFree, WithoutNewlines, WellFormedGroup;
    ParsedIsWellFormed(body);
    LinesHaveNoNewline(body);
    AddLinesWithoutNewline([], Lines(body));
    RoundTripExactly(ParsedGroups(body));
  }

  /** Parse results of plain files are canonical, so each is the parse of its own rendering. */
  lemma ReparseIsStable(body: string)
    requires PlainBody(body)
    ensures Canonical(ParsedGroups(body))
    ensures ParsedGroups(Render(ParsedGroups(body))) == ParsedGroups(body)
  {
    ParsedIsWellFormed(body);
    AddLinesKeepsWritable([], Lines(body));
    ParseUndoesRender(ParsedGroups(body));
  }
}
