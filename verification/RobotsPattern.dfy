/** Path patterns of robots.txt rules (RFC 9309 section 2.2.3): `*` stands for any string
    and a trailing `$` anchors the end. */
module RobotsPattern {

  const WILDCARD := '*'
  const ANCHOR := '$'

  // ---------- What a pattern means ----------

  function Wildcards(core: string): nat {
    if core == "" then 0
    else (if core[0] == WILDCARD then 1 else 0) + Wildcards(core[1..])
  }

  /** The text obtained by writing `fills[i]` in place of the i-th wildcard. */
  function Expand(core: string, fills: seq<string>): string
    requires |fills| == Wildcards(core)
  {
    if core == "" then ""
    else if core[0] == WILDCARD then fills[0] + Expand(core[1..], fills[1..])
    else [core[0]] + Expand(core[1..], fills)
  }

  predicate EndAnchored(pattern: string) {
    pattern != "" && pattern[|pattern| - 1] == ANCHOR
  }

  function Core(pattern: string): string {
    if EndAnchored(pattern) then pattern[..|pattern| - 1] else pattern
  }

  /** The text of an anchored pattern is the whole path, of any other pattern a prefix of it. */
  predicate Accepts(path: string, text: string, anchored: bool) {
    if anchored then text == path else text <= path
  }

  /** RFC 9309 section 2.2.3: some choice of a string for each wildcard makes the pattern fit. */
  ghost predicate Matches(path: string, pattern: string) {
    exists fills: seq<string> ::
      |fills| == Wildcards(Core(pattern)) && Accepts(path, Expand(Core(pattern), fills), EndAnchored(pattern))
  }

  // ---------- Pieces between wildcards ----------

  function SplitAtWildcards(core: string): (parts: seq<string>)
    ensures |parts| == Wildcards(core) + 1
  {
    if core == "" then [""]
    else
      var rest := SplitAtWildcards(core[1..]);
      if core[0] == WILDCARD then [""] + rest
      else [[core[0]] + rest[0]] + rest[1..]
  }

  function Glue(parts: seq<string>, fills: seq<string>): string
    requires |parts| == |fills| + 1
  {
    if fills == [] then parts[0]
    else parts[0] + fills[0] + Glue(parts[1..], fills[1..])
  }

  lemma {:induction false} ExpandIsGlue(core: string, fills: seq<string>)
    requires |fills| == Wildcards(core)
    ensures Expand(core, fills) == Glue(SplitAtWildcards(core), fills)
  {
    if core != "" {
      var rest := SplitAtWildcards(core[1..]);
      if core[0] == WILDCARD {
        ExpandIsGlue(core[1..], fills[1..]);
        assert SplitAtWildcards(core)[1..] == rest;
      } else {
        ExpandIsGlue(core[1..], fills);
        var parts := SplitAtWildcards(core);
        assert parts[0] == [core[0]] + rest[0] && parts[1..] == rest[1..];
      }
    }
  }

  /** `parts` fit into `text` in order, with any gap before each of them. */
  ghost predicate Fits(parts: seq<string>, text: string, anchored: bool) {
    if parts == [] then anchored ==> text == ""
    else exists at: nat ::
        OccursAt(parts[0], text, at) && Fits(parts[1..], text[at + |parts[0]|..], anchored)
  }

  predicate OccursAt(part: string, text: string, at: nat) {
    at + |part| <= |text| && text[at..at + |part|] == part
  }

  lemma PrefixOfTwo(first: string, tail: string, path: string)
    requires first + tail <= path
    ensures first <= path && tail <= path[|first|..]
    ensures path == first + tail <==> path[|first|..] == tail
  {
    assert path[..|first + tail|] == first + tail;
    assert path == first + path[|first|..];
  }

  lemma AcceptsAfter(head: string, tail: string, text: string, anchored: bool)
    requires head <= text && Accepts(text[|head|..], tail, anchored)
    ensures Accepts(text, head + tail, anchored)
  {
    assert text == head + text[|head|..];
  }

  lemma {:induction false} FitsFromFills(parts: seq<string>, fills: seq<string>, text: string, anchored: bool)
    requires |parts| == |fills|
    requires Accepts(text, Joined(parts, fills), anchored)
    ensures Fits(parts, text, anchored)
  {
    if parts != [] {
      var head := fills[0] + parts[0];
      var tail := Joined(parts[1..], fills[1..]);
      assert Joined(parts, fills) == head + tail;
      assert head + tail <= text;
      assert text[..|head|] == head by { assert text[..|head + tail|] == head + tail; }
      assert text[|head|..][..|tail|] == tail by { assert text[..|head + tail|] == head + tail; }
      FitsFromFills(parts[1..], fills[1..], text[|head|..], anchored);
      assert OccursAt(parts[0], text, |fills[0]|) by {
        assert text[|fills[0]|..|head|] == head[|fills[0]|..];
      }
    }
  }

  /** Every gap followed by its part. */
  function Joined(parts: seq<string>, fills: seq<string>): string
    requires |parts| == |fills|
  {
    if parts == [] then "" else fills[0] + parts[0] + Joined(parts[1..], fills[1..])
  }

  lemma {:induction false} FillsFromFits(parts: seq<string>, text: string, anchored: bool) returns (fills: seq<string>)
    requires Fits(parts, text, anchored)
    ensures |fills| == |parts| && Accepts(text, Joined(parts, fills), anchored)
  {
    if parts == [] {
      fills := [];
    } else {
      var at: nat :| OccursAt(parts[0], text, at) && Fits(parts[1..], text[at + |parts[0]|..], anchored);
      var rest := FillsFromFits(parts[1..], text[at + |parts[0]|..], anchored);
      fills := [text[..at]] + rest;
      assert fills[1..] == rest;
      var tail := Joined(parts[1..], rest);
      assert Joined(parts, fills) == text[..at] + parts[0] + tail;
      assert text[..at] + parts[0] == text[..at + |parts[0]|];
      AcceptsAfter(text[..at + |parts[0]|], tail, text, anchored);
    }
  }

  lemma {:induction false} GlueIsJoined(parts: seq<string>, fills: seq<string>)
    requires |parts| == |fills| + 1
    ensures Glue(parts, fills) == parts[0] + Joined(parts[1..], fills)
  {
    if fills != [] {
      GlueIsJoined(parts[1..], fills[1..]);
      var a, b, c, d := parts[0], fills[0], parts[1], Joined(parts[2..], fills[1..]);
      assert parts[1..][1..] == parts[2..];
      assert a + b + (c + d) == a + (b + c + d);
    }
  }

  lemma MatchGivesFit(path: string, pattern: string, parts: seq<string>)
    requires parts == SplitAtWildcards(Core(pattern))
    requires Matches(path, pattern)
    ensures parts[0] <= path && Fits(parts[1..], path[|parts[0]|..], EndAnchored(pattern))
  {
    var core, anchored := Core(pattern), EndAnchored(pattern);
    var fills: seq<string> :| |fills| == Wildcards(core) && Accepts(path, Expand(core, fills), anchored);
    ExpandIsGlue(core, fills);
    GlueIsJoined(parts, fills);
    var first, tail := parts[0], Joined(parts[1..], fills);
    PrefixOfTwo(first, tail, path);
    var rest := path[|first|..];
    assert Accepts(rest, tail, anchored);
    FitsFromFills(parts[1..], fills, rest, anchored);
  }

  lemma FitGivesMatch(path: string, pattern: string, parts: seq<string>)
    requires parts == SplitAtWildcards(Core(pattern))
    requires parts[0] <= path && Fits(parts[1..], path[|parts[0]|..], EndAnchored(pattern))
    ensures Matches(path, pattern)
  {
    var first, rest := parts[0], path[|parts[0]|..];
    var fills := FillsFromFits(parts[1..], rest, EndAnchored(pattern));
    GlueIsJoined(parts, fills);
    ExpandIsGlue(Core(pattern), fills);
    assert path == first + rest;
    assert Accepts(path, Expand(Core(pattern), fills), EndAnchored(pattern));
  }

  lemma MatchesIsFits(path: string, pattern: string, parts: seq<string>)
    requires parts == SplitAtWildcards(Core(pattern))
    ensures Matches(path, pattern) <==>
            parts[0] <= path && Fits(parts[1..], path[|parts[0]|..], EndAnchored(pattern))
  {
    if Matches(path, pattern) {
      MatchGivesFit(path, pattern, parts);
    } else if parts[0] <= path && Fits(parts[1..], path[|parts[0]|..], EndAnchored(pattern)) {
      FitGivesMatch(path, pattern, parts);
    }
  }

  // ---------- The leftmost search never loses a solution ----------

  /** Parts that fit after `late` also fit after any earlier position: the gap absorbs the difference. */
  lemma FitsEarlier(parts: seq<string>, text: string, early: nat, late: nat, anchored: bool)
    requires parts != [] && early <= late <= |text|
    requires Fits(parts, text[late..], anchored)
    ensures Fits(parts, text[early..], anchored)
  {
    var at: nat :| OccursAt(parts[0], text[late..], at)
                   && Fits(parts[1..], text[late..][at + |parts[0]|..], anchored);
    var shifted := late - early + at;
    assert text[early..][shifted + |parts[0]|..] == text[late..][at + |parts[0]|..];
    assert OccursAt(parts[0], text[early..], shifted) by {
      assert text[early..][shifted..shifted + |parts[0]|] == text[late..][at..at + |parts[0]|];
    }
  }

  /** Committing to the leftmost occurrence of a part keeps the answer, unless it is the last part. */
  lemma LeftmostSuffices(parts: seq<string>, text: string, from: nat, at: nat, anchored: bool)
    requires |parts| > 1 && from <= at
    requires OccursAt(parts[0], text, at)
    requires forall k :: from <= k < at ==> !OccursAt(parts[0], text, k)
    ensures Fits(parts, text[from..], anchored) <==> Fits(parts[1..], text[at + |parts[0]|..], anchored)
  {
    if Fits(parts, text[from..], anchored) { LeftmostAlsoFits(parts, text, from, at, anchored); }
    if Fits(parts[1..], text[at + |parts[0]|..], anchored) { FitsFromHere(parts, text, from, at, anchored); }
  }

  lemma LeftmostAlsoFits(parts: seq<string>, text: string, from: nat, at: nat, anchored: bool)
    requires |parts| > 1 && from <= at && OccursAt(parts[0], text, at)
    requires forall k :: from <= k < at ==> !OccursAt(parts[0], text, k)
    requires Fits(parts, text[from..], anchored)
    ensures Fits(parts[1..], text[at + |parts[0]|..], anchored)
  {
    var n := |parts[0]|;
    var k: nat :| OccursAt(parts[0], text[from..], k) && Fits(parts[1..], text[from..][k + n..], anchored);
    OccursInTail(parts[0], text, from, k);
    assert at <= from + k;
    assert text[from..][k + n..] == text[from + k + n..];
    FitsEarlier(parts[1..], text, at + n, from + k + n, anchored);
  }

  lemma FitsFromHere(parts: seq<string>, text: string, from: nat, at: nat, anchored: bool)
    requires parts != [] && from <= at && OccursAt(parts[0], text, at)
    requires Fits(parts[1..], text[at + |parts[0]|..], anchored)
    ensures Fits(parts, text[from..], anchored)
  {
    var k := at - from;
    OccursInTail(parts[0], text, from, k);
    assert text[from..][k + |parts[0]|..] == text[at + |parts[0]|..];
    assert OccursAt(parts[0], text[from..], k) && Fits(parts[1..], text[from..][k + |parts[0]|..], anchored);
  }

  lemma AbsentPartCannotFit(parts: seq<string>, text: string, from: nat, anchored: bool)
    requires parts != [] && from <= |text|
    requires forall k :: from <= k <= |text| ==> !OccursAt(parts[0], text, k)
    ensures !Fits(parts, text[from..], anchored)
  {
    forall k: nat ensures !OccursAt(parts[0], text[from..], k) {
      if k + |parts[0]| <= |text| - from {
        assert !OccursAt(parts[0], text, from + k);
        assert text[from..][k..k + |parts[0]|] == text[from + k..from + k + |parts[0]|];
      }
    }
  }

  lemma OccursInTail(part: string, text: string, from: nat, k: nat)
    requires from <= |text|
    ensures OccursAt(part, text[from..], k) <==> OccursAt(part, text, from + k)
  {
    if from + k + |part| <= |text| {
      assert text[from..][k..k + |part|] == text[from + k..from + k + |part|];
    }
  }

  lemma LastPartFitsAnywhere(last: string, text: string, from: nat)
    requires from <= |text|
    ensures Fits([last], text[from..], false) <==> exists k: nat :: from <= k && OccursAt(last, text, k)
  {
    if k: nat :| from <= k && OccursAt(last, text, k) {
      OccursInTail(last, text, from, k - from);
      assert OccursAt([last][0], text[from..], k - from) && Fits([last][1..], text[from..][k - from + |last|..], false);
    }
    if Fits([last], text[from..], false) {
      var k: nat :| OccursAt([last][0], text[from..], k);
      OccursInTail(last, text, from, k);
    }
  }

  lemma LastPartFitsEnd(last: string, text: string, from: nat)
    requires from <= |text|
    ensures Fits([last], text[from..], true) <==>
            |text| - |last| >= from && OccursAt(last, text, |text| - |last|)
  {
    if |text| - |last| >= from && OccursAt(last, text, |text| - |last|) {
      var k := |text| - |last| - from;
      OccursInTail(last, text, from, k);
      assert OccursAt([last][0], text[from..], k) && Fits([last][1..], text[from..][k + |[last][0]|..], true);
      assert Fits([last], text[from..], true);
    }
    if Fits([last], text[from..], true) {
      var k: nat :| OccursAt([last][0], text[from..], k) && Fits([last][1..], text[from..][k + |[last][0]|..], true);
      OccursInTail(last, text, from, k);
      assert text[from..][k + |last|..] == "";
    }
  }

  // ---------- The matcher ----------

  /** JavaScript `indexOf`: the leftmost occurrence at or after `from`, or -1. */
  method IndexOf(text: string, part: string, from: nat) returns (index: int)
    requires from <= |text|
    ensures index == -1 || (from <= index && OccursAt(part, text, index))
    ensures index == -1 ==> forall k :: from <= k <= |text| ==> !OccursAt(part, text, k)
    ensures index >= 0 ==> forall k :: from <= k < index ==> !OccursAt(part, text, k)
  {
    index := from;
    while index + |part| <= |text|
      invariant from <= index <= |text| + 1
      invariant forall k :: from <= k < index ==> !OccursAt(part, text, k)
    {
      if text[index..index + |part|] == part { return; }
      index := index + 1;
    }
    index := -1;
  }

  /** Searches the middle parts from `start` on, then decides on the last part. */
  method FitParts(path: string, parts: seq<string>, start: nat, anchored: bool) returns (fits: bool)
    requires parts != [] && start <= |path|
    ensures fits <==> Fits(parts, path[start..], anchored)
  {
    ghost var want := Fits(parts, path[start..], anchored);
    var position := start;
    for i := 0 to |parts| - 1
      invariant 0 <= position <= |path|
      invariant want <==> Fits(parts[i..], path[position..], anchored)
    {
      var index := IndexOf(path, parts[i], position);
      ghost var left := parts[i..];
      assert left[0] == parts[i] && left[1..] == parts[i + 1..];
      if index < 0 {
        AbsentPartCannotFit(left, path, position, anchored);
        return false;
      }
      LeftmostSuffices(left, path, position, index, anchored);
      position := index + |parts[i]|;
    }
    var last := parts[|parts| - 1];
    assert parts[|parts| - 1..] == [last];
    if !anchored {
      LastPartFitsAnywhere(last, path, position);
      var index := IndexOf(path, last, position);
      return index >= 0;
    }
    LastPartFitsEnd(last, path, position);
    return |path| - |last| >= position && path[|path| - |last|..] == last;
  }

  /** Plain string search instead of a regular expression. It decides `Matches` exactly. */
  method RobotsPatternMatches(path: string, pattern: string) returns (matches: bool)
    ensures matches <==> Matches(path, pattern)
  {
    var anchored := EndAnchored(pattern);
    var parts := SplitAtWildcards(Core(pattern));
    MatchesIsFits(path, pattern, parts);
    var first := parts[0];
    if !(first <= path) { return false; }
    if |parts| == 1 {
      assert path == first + path[|first|..];
      return !anchored || path == first;
    }
    matches := FitParts(path, parts[1..], |first|, anchored);
  }

  // ---------- Specificity ----------

  /** A rule's weight: its length without wildcards and anchors. */
  function Specificity(pattern: string): nat {
    if pattern == "" then 0
    else (if pattern[0] == WILDCARD || pattern[0] == ANCHOR then 0 else 1) + Specificity(pattern[1..])
  }

  /** No wildcard and no anchor: a plain prefix. */
  predicate Plain(pattern: string) {
    WILDCARD !in pattern && ANCHOR !in pattern
  }

  /** A plain pattern weighs as much as it is long. */
  lemma {:induction false} PlainWeighsLength(pattern: string)
    requires Plain(pattern)
    ensures Specificity(pattern) == |pattern|
  {
    if pattern != "" {
      assert pattern[0] in pattern;
      PlainWeighsLength(pattern[1..]);
    }
  }

  /** Weights add up. */
  lemma {:induction false} WeightsAdd(left: string, right: string)
    ensures Specificity(left + right) == Specificity(left) + Specificity(right)
  {
    if left == "" {
      assert left + right == right;
    } else {
      assert (left + right)[1..] == left[1..] + right;
      WeightsAdd(left[1..], right);
    }
  }

  /** A wildcard or an anchor weighs nothing, wherever it stands. */
  lemma MarksWeighNothing(before: string, mark: char, after: string)
    requires mark == WILDCARD || mark == ANCHOR
    ensures Specificity(before + [mark] + after) == Specificity(before + after)
  {
    WeightsAdd(before + [mark], after);
    WeightsAdd(before, [mark]);
    WeightsAdd(before, after);
    assert [mark][1..] == "";
  }

  lemma {:induction false} NoWildcards(core: string)
    requires WILDCARD !in core
    ensures Wildcards(core) == 0 && Expand(core, []) == core
  {
    if core != "" {
      assert core[0] in core;
      NoWildcards(core[1..]);
    }
  }

  /** A plain pattern matches the paths that begin with it. */
  lemma PlainMatchesPrefix(path: string, pattern: string)
    requires Plain(pattern)
    ensures Matches(path, pattern) <==> pattern <= path
  {
    if pattern != "" { assert pattern[|pattern| - 1] in pattern; }
    assert Core(pattern) == pattern && !EndAnchored(pattern);
    NoWildcards(pattern);
    var none: seq<string> := [];
    assert |none| == Wildcards(Core(pattern)) && Expand(Core(pattern), none) == pattern;
  }

  // ---------- Patterns with one mark ----------

  lemma {:induction false} OneWildcard(before: string, after: string, gap: string)
    requires WILDCARD !in before && WILDCARD !in after
    ensures var core := before + [WILDCARD] + after;
            Wildcards(core) == 1 && Expand(core, [gap]) == before + gap + after
  {
    var core := before + [WILDCARD] + after;
    if before == "" {
      NoWildcards(after);
      assert core[1..] == after && [gap][1..] == [];
    } else {
      assert before[0] in before && core[1..] == before[1..] + [WILDCARD] + after;
      OneWildcard(before[1..], after, gap);
    }
  }

  /** A plain text with an anchor matches that path alone. */
  lemma AnchoredMatchesWhole(path: string, text: string)
    requires Plain(text)
    ensures Matches(path, text + [ANCHOR]) <==> path == text
  {
    var pattern := text + [ANCHOR];
    assert EndAnchored(pattern) && Core(pattern) == text;
    NoWildcards(text);
    var none: seq<string> := [];
    assert |none| == Wildcards(Core(pattern)) && Expand(Core(pattern), none) == text;
  }

  /** A wildcard stands for any text: the path begins with what is before it and goes on with what is after it. */
  lemma WildcardMatchesAnyText(path: string, before: string, after: string)
    requires Plain(before) && Plain(after)
    ensures Matches(path, before + [WILDCARD] + after) <==> exists gap: string :: before + gap + after <= path
    ensures Matches(path, before + [WILDCARD] + after + [ANCHOR]) <==>
            exists gap: string :: before + gap + after == path
  {
    var core := before + [WILDCARD] + after;
    assert core[|core| - 1] != ANCHOR && Core(core) == core && Core(core + [ANCHOR]) == core;
    forall gap: string ensures Wildcards(core) == 1 && Expand(core, [gap]) == before + gap + after {
      OneWildcard(before, after, gap);
    }
    OneFilling(path, core);
    OneFilling(path, core + [ANCHOR]);
  }

  lemma OneFilling(path: string, pattern: string)
    requires Wildcards(Core(pattern)) == 1
    ensures Matches(path, pattern) <==>
            exists gap: string :: Accepts(path, Expand(Core(pattern), [gap]), EndAnchored(pattern))
  {
    var core, anchored := Core(pattern), EndAnchored(pattern);
    if Matches(path, pattern) {
      var fills: seq<string> :| |fills| == Wildcards(core) && Accepts(path, Expand(core, fills), anchored);
      assert fills == [fills[0]];
    }
    if gap: string :| Accepts(path, Expand(core, [gap]), anchored) {
      assert |[gap]| == Wildcards(core);
    }
  }
}
