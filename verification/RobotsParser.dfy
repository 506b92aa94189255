/** Reading a robots.txt file line by line into groups. */
module RobotsParser {
  import opened RobotsGroups

  // ---------- Text ----------

  predicate IsTerminator(c: char) {
    c == '\n' || c == '\r' || c == '\U{2028}' || c == '\U{2029}'
  }

  /** The white space that JavaScript `trim` removes. */
  predicate IsWhite(c: char) {
    '\t' <= c <= '\r' || c == ' ' || c == '\U{a0}' || c == '\U{1680}' || '\U{2000}' <= c <= '\U{200a}'
    || '\U{2028}' <= c <= '\U{2029}' || c == '\U{202f}' || c == '\U{205f}' || c == '\U{3000}' || c == '\U{feff}'
  }

  function TrimStart(s: string): string {
    if s != "" && IsWhite(s[0]) then TrimStart(s[1..]) else s
  }

  function TrimEnd(s: string): string {
    if s != "" && IsWhite(s[|s| - 1]) then TrimEnd(s[..|s| - 1]) else s
  }

  function Trim(s: string): string {
    TrimEnd(TrimStart(s))
  }

  function LowerChar(c: char): char {
    if 'A' <= c <= 'Z' then (c as int + 32) as char else c
  }

  function Lower(s: string): (low: string)
    ensures |low| == |s|
  {
    if s == "" then "" else [LowerChar(s[0])] + Lower(s[1..])
  }

  /** The position of the first `c`, or -1. */
  function IndexOfChar(s: string, c: char): int {
    if s == "" then -1
    else if s[0] == c then 0
    else
      var rest := IndexOfChar(s[1..], c);
      if rest < 0 then -1 else rest + 1
  }

  lemma {:induction false} IndexOfCharFinds(s: string, c: char)
    ensures IndexOfChar(s, c) == -1 <==> c !in s
    ensures c in s ==> 0 <= IndexOfChar(s, c) < |s| && s[IndexOfChar(s, c)] == c && c !in s[..IndexOfChar(s, c)]
  {
    if s != "" {
      IndexOfCharFinds(s[1..], c);
      assert s == [s[0]] + s[1..];
      if s[0] != c && c in s {
        var i := IndexOfChar(s, c);
        assert s[..i] == [s[0]] + s[1..][..i - 1];
      }
    }
  }

  lemma {:induction false} IndexOfCharAfter(prefix: string, c: char, rest: string)
    requires c !in prefix
    ensures IndexOfChar(prefix + [c] + rest, c) == |prefix|
  {
    var s := prefix + [c] + rest;
    if prefix != "" {
      IndexOfCharAfter(prefix[1..], c, rest);
      assert s[1..] == prefix[1..] + [c] + rest;
    }
  }

  /** Lines end with a newline, with or without a carriage return before it. */
  function Lines(body: string): seq<string>
    decreases |body|
  {
    IndexOfCharFinds(body, '\n');
    var i := IndexOfChar(body, '\n');
    if i < 0 then [body] else [DropReturn(body[..i])] + Lines(body[i + 1..])
  }

  function DropReturn(line: string): string {
    if line != "" && line[|line| - 1] == '\r' then line[..|line| - 1] else line
  }

  lemma FirstLine(line: string, rest: string)
    requires '\n' !in line
    ensures Lines(line + ['\n'] + rest) == [DropReturn(line)] + Lines(rest)
  {
    var body := line + ['\n'] + rest;
    IndexOfCharAfter(line, '\n', rest);
    assert body[..|line|] == line && body[|line| + 1..] == rest;
  }

  /** A carriage return before a newline is no part of the line. */
  lemma {:induction false} ReturnsDoNotMatter(before: string, after: string)
    requires before == "" || before[|before| - 1] != '\r'
    ensures Lines(before + ['\r'] + ['\n'] + after) == Lines(before + ['\n'] + after)
    decreases |before|
  {
    hide Lines;
    IndexOfCharFinds(before, '\n');
    if '\n' in before {
      var i := IndexOfChar(before, '\n');
      var head, tail := before[..i], before[i + 1..];
      assert before == head + ['\n'] + tail;
      assert before + ['\r'] + ['\n'] + after == head + ['\n'] + (tail + ['\r'] + ['\n'] + after);
      assert before + ['\n'] + after == head + ['\n'] + (tail + ['\n'] + after);
      FirstLine(head, tail + ['\r'] + ['\n'] + after);
      FirstLine(head, tail + ['\n'] + after);
      ReturnsDoNotMatter(tail, after);
    } else {
      FirstLine(before + ['\r'], after);
      FirstLine(before, after);
      assert (before + ['\r'])[..|before|] == before;
    }
  }

  predicate OneLine(s: string) {
    forall c :: c in s ==> !IsTerminator(c)
  }

  /** A comment runs from a `#` to the end of the line; it never crosses a line terminator. */
  function StripComment(line: string): string {
    if line == "" || (line[0] == '#' && OneLine(line)) then ""
    else [line[0]] + StripComment(line[1..])
  }

  // ---------- One line ----------

  datatype Meaning = Nothing | AgentLine(agent: string) | RuleLine(rule: Rule)

  function FieldMeaning(field: string, value: string): Meaning {
    if value == "" then Nothing
    else if field == "user-agent" then AgentLine(Lower(value))
    else if field == "allow" then RuleLine(Rule(Allow, value))
    else if field == "disallow" then RuleLine(Rule(Disallow, value))
    else Nothing
  }

  function ReadLine(originalLine: string): Meaning {
    ReadField(Trim(StripComment(originalLine)))
  }

  function ReadField(line: string): Meaning {
    var separator := IndexOfChar(line, ':');
    if separator < 0 then Nothing
    else
      IndexOfCharFinds(line, ':');
      FieldMeaning(Lower(Trim(line[..separator])), Trim(line[separator + 1..]))
  }

  function ReadLines(lines: seq<string>): seq<Meaning> {
    if lines == [] then [] else [ReadLine(lines[0])] + ReadLines(lines[1..])
  }

  // ---------- Lines to groups ----------

  /** An agent line opens a group unless the open group still has no rules; a rule joins the open group. */
  function AddLine(groups: seq<Group>, meaning: Meaning): seq<Group> {
    match meaning
    case Nothing => groups
    case AgentLine(agent) =>
      if groups == [] || groups[|groups| - 1].rules != [] then groups + [Group([agent], [])]
      else
        var last := groups[|groups| - 1];
        groups[|groups| - 1 := last.(userAgents := last.userAgents + [agent])]
    case RuleLine(rule) =>
      if groups == [] then groups
      else
        var last := groups[|groups| - 1];
        groups[|groups| - 1 := last.(rules := last.rules + [rule])]
  }

  function AddLines(groups: seq<Group>, meanings: seq<Meaning>): seq<Group>
    decreases |meanings|
  {
    if meanings == [] then groups else AddLines(AddLine(groups, meanings[0]), meanings[1..])
  }

  function ParsedGroups(body: string): seq<Group> {
    AddLines([], ReadLines(Lines(body)))
  }

  method ParseRobotsRules(body: string) returns (state: RobotsRules)
    ensures state == Published(ParsedGroups(body))
  {
    hide ReadLine;
    var groups: seq<Group> := [];
    var open := false; // whether `current` is set; it is always the last group
    var lines := Lines(body);
    for i := 0 to |lines|
      invariant open <==> groups != []
      invariant AddLines(groups, ReadLines(lines[i..])) == ParsedGroups(body)
    {
      assert lines[i..][1..] == lines[i + 1..];
      ghost var before := groups;
      match ReadLine(lines[i]) {
        case Nothing =>
        case AgentLine(agent) =>
          if !open || groups[|groups| - 1].rules != [] {
            groups := groups + [Group([], [])];
            open := true;
          }
          var current := groups[|groups| - 1];
          assert current.userAgents == [] ==> current.userAgents + [agent] == [agent];
          groups := groups[|groups| - 1 := current.(userAgents := current.userAgents + [agent])];
        case RuleLine(rule) =>
          if open {
            var current := groups[|groups| - 1];
            groups := groups[|groups| - 1 := current.(rules := current.rules + [rule])];
          }
      }
      assert groups == AddLine(before, ReadLine(lines[i]));
    }
    state := Published(groups);
  }

  // ---------- What a parse result looks like ----------

  ghost predicate Trimmed(value: string) {
    value != "" && !IsWhite(value[0]) && !IsWhite(value[|value| - 1])
  }

  ghost predicate WellFormedGroup(group: Group) {
    && group.userAgents != []
    && (forall agent :: agent in group.userAgents ==> Trimmed(agent) && Lower(agent) == agent)
    && (forall rule :: rule in group.rules ==> Trimmed(rule.path))
  }

  /** Agent lists and paths are never empty, and only the last group may have no rules. */
  ghost predicate WellFormed(groups: seq<Group>) {
    && (forall group :: group in groups ==> WellFormedGroup(group))
    && (forall i :: 0 <= i < |groups| - 1 ==> groups[i].rules != [])
  }

  lemma {:induction false} TrimStartKeepsEnd(s: string)
    ensures TrimStart(s) == "" || (!IsWhite(TrimStart(s)[0]) && TrimStart(s)[|TrimStart(s)| - 1] == s[|s| - 1])
    ensures forall c :: c in TrimStart(s) ==> c in s
  {
    if s != "" && IsWhite(s[0]) { TrimStartKeepsEnd(s[1..]); }
  }

  lemma {:induction false} TrimEndKeepsStart(s: string)
    ensures TrimEnd(s) == "" || (!IsWhite(TrimEnd(s)[|TrimEnd(s)| - 1]) && TrimEnd(s)[0] == s[0])
    ensures forall c :: c in TrimEnd(s) ==> c in s
  {
    if s != "" && IsWhite(s[|s| - 1]) { TrimEndKeepsStart(s[..|s| - 1]); }
  }

  lemma TrimTrims(s: string)
    ensures Trim(s) == "" || Trimmed(Trim(s))
    ensures forall c :: c in Trim(s) ==> c in s
  {
    TrimStartKeepsEnd(s);
    TrimEndKeepsStart(TrimStart(s));
  }

  /** Each capital becomes its small letter, and nothing else changes. */
  lemma {:induction false} LowerAt(value: string, i: nat)
    requires i < |value|
    ensures Lower(value)[i] == if 'A' <= value[i] <= 'Z' then value[i] - 'A' + 'a' else value[i]
  {
    if i > 0 { LowerAt(value[1..], i - 1); }
  }

  lemma {:induction false} LowerStable(value: string)
    ensures Lower(Lower(value)) == Lower(value)
    ensures forall c :: c in Lower(value) && c !in value ==> 'a' <= c <= 'z'
  {
    if value != "" {
      LowerStable(value[1..]);
      assert Lower(value)[1..] == Lower(value[1..]);
    }
  }

  lemma LowerKeepsTrimmed(value: string)
    requires Trimmed(value)
    ensures Trimmed(Lower(value))
  {
    LowerAt(value, 0);
    LowerAt(value, |value| - 1);
  }

  ghost predicate GoodMeaning(meaning: Meaning) {
    && (meaning.AgentLine? ==> Trimmed(meaning.agent) && Lower(meaning.agent) == meaning.agent)
    && (meaning.RuleLine? ==> Trimmed(meaning.rule.path))
  }

  lemma FieldMeaningIsGood(field: string, value: string)
    requires value == "" || Trimmed(value)
    ensures GoodMeaning(FieldMeaning(field, value))
  {
    LowerStable(value);
    if value != "" { LowerKeepsTrimmed(value); }
  }

  lemma ReadLineIsGood(line: string)
    ensures GoodMeaning(ReadLine(line))
  {
    var stripped := Trim(StripComment(line));
    var separator := IndexOfChar(stripped, ':');
    if separator >= 0 {
      IndexOfCharFinds(stripped, ':');
      var value := Trim(stripped[separator + 1..]);
      TrimTrims(stripped[separator + 1..]);
      FieldMeaningIsGood(Lower(Trim(stripped[..separator])), value);
    }
  }

  lemma AddLineKeepsWellFormed(groups: seq<Group>, meaning: Meaning)
    requires WellFormed(groups) && GoodMeaning(meaning)
    ensures WellFormed(AddLine(groups, meaning))
  {
    var more := AddLine(groups, meaning);
    if groups != [] { assert groups[|groups| - 1] in groups; }
    forall i | 0 <= i < |more| ensures WellFormedGroup(more[i]) {
      assert i < |groups| ==> groups[i] in groups;
    }
  }

  lemma {:induction false} AddLinesKeepsWellFormed(groups: seq<Group>, lines: seq<string>)
    requires WellFormed(groups)
    ensures WellFormed(AddLines(groups, ReadLines(lines)))
    decreases |lines|
  {
    if lines != [] {
      ReadLineIsGood(lines[0]);
      AddLineKeepsWellFormed(groups, ReadLine(lines[0]));
      AddLinesKeepsWellFormed(AddLine(groups, ReadLine(lines[0])), lines[1..]);
    }
  }

  /** Every parse result is well formed, whatever the file holds. */
  lemma ParsedIsWellFormed(body: string)
    ensures WellFormed(ParsedGroups(body))
  {
    AddLinesKeepsWellFormed([], Lines(body));
  }

  // ---------- File order ----------

  function RuleLines(meanings: seq<Meaning>): seq<Rule> {
    if meanings == [] then []
    else (if meanings[0].RuleLine? then [meanings[0].rule] else []) + RuleLines(meanings[1..])
  }

  function FromFirstAgent(meanings: seq<Meaning>): seq<Meaning> {
    if meanings == [] || meanings[0].AgentLine? then meanings else FromFirstAgent(meanings[1..])
  }

  lemma {:induction false} RulesOfAppend(groups: seq<Group>, more: seq<Group>)
    ensures RulesOf(groups + more) == RulesOf(groups) + RulesOf(more)
  {
    if groups == [] {
      assert groups + more == more;
    } else {
      RulesOfAppend(groups[1..], more);
      assert (groups + more)[1..] == groups[1..] + more;
      var first, middle, last := groups[0].rules, RulesOf(groups[1..]), RulesOf(more);
      assert first + (middle + last) == (first + middle) + last;
    }
  }

  lemma OneGroupRules(group: Group)
    ensures RulesOf([group]) == group.rules
  {
    assert [group][1..] == [];
  }

  lemma ReplaceLastRules(groups: seq<Group>, last: Group)
    requires groups != []
    ensures RulesOf(groups[|groups| - 1 := last]) == RulesOf(groups[..|groups| - 1]) + last.rules
  {
    assert groups[|groups| - 1 := last] == groups[..|groups| - 1] + [last];
    RulesOfAppend(groups[..|groups| - 1], [last]);
    OneGroupRules(last);
  }

  lemma AddLineRules(groups: seq<Group>, meaning: Meaning)
    requires groups != [] || meaning.AgentLine?
    ensures AddLine(groups, meaning) != []
    ensures RulesOf(AddLine(groups, meaning)) == RulesOf(groups) + RuleLines([meaning])
  {
    assert RuleLines([meaning]) == if meaning.RuleLine? then [meaning.rule] else [];
    if groups == [] || (meaning.AgentLine? && groups[|groups| - 1].rules != []) {
      RulesOfAppend(groups, [Group([meaning.agent], [])]);
      OneGroupRules(Group([meaning.agent], []));
    } else if !meaning.Nothing? {
      var last := groups[|groups| - 1];
      assert groups[|groups| - 1 := last] == groups;
      ReplaceLastRules(groups, last);
      var more := AddLine(groups, meaning)[|groups| - 1];
      ReplaceLastRules(groups, more);
      var front := RulesOf(groups[..|groups| - 1]);
      assert meaning.RuleLine? ==> front + (last.rules + [meaning.rule]) == front + last.rules + [meaning.rule];
    }
  }

  lemma {:induction false} AddLinesRules(groups: seq<Group>, meanings: seq<Meaning>)
    requires groups != [] || meanings == [] || meanings[0].AgentLine?
    ensures RulesOf(AddLines(groups, meanings)) == RulesOf(groups) + RuleLines(meanings)
    decreases |meanings|
  {
    if meanings != [] {
      AddLineRules(groups, meanings[0]);
      AddLinesRules(AddLine(groups, meanings[0]), meanings[1..]);
      assert RuleLines(meanings) == RuleLines([meanings[0]]) + RuleLines(meanings[1..]);
    }
  }

  lemma {:induction false} LinesBeforeFirstAgentAreDropped(meanings: seq<Meaning>)
    ensures AddLines([], meanings) == AddLines([], FromFirstAgent(meanings))
  {
    if meanings != [] && !meanings[0].AgentLine? {
      LinesBeforeFirstAgentAreDropped(meanings[1..]);
    }
  }

  /** The rules of all groups, in order, are the file's rule lines from its first agent line on. */
  lemma RulesKeepFileOrder(body: string)
    ensures RulesOf(ParsedGroups(body)) == RuleLines(FromFirstAgent(ReadLines(Lines(body))))
  {
    var meanings := ReadLines(Lines(body));
    LinesBeforeFirstAgentAreDropped(meanings);
    FirstIsAgent(meanings);
    AddLinesRules([], FromFirstAgent(meanings));
  }

  lemma {:induction false} FirstIsAgent(meanings: seq<Meaning>)
    ensures FromFirstAgent(meanings) == [] || FromFirstAgent(meanings)[0].AgentLine?
  {
    if meanings != [] && !meanings[0].AgentLine? { FirstIsAgent(meanings[1..]); }
  }
}
