/** Scoring the operations a Bottle check proposed against the accepted sets of operations. */
module CheckScoring {
  import opened Wrappers

  datatype SetScore = SetScore(
    score: real, precision: real, recall: real, matchedCount: nat, expectedCount: nat, actualCount: nat,
    missingCount: nat, extraCount: nat)

  // ---------- What one score is ----------

  function Max(a: real, b: real): real {
    if a >= b then a else b
  }

  /** `expected * actual` keeps each key as often as both have it. */
  ghost function ScoreOf<K>(expected: multiset<K>, actual: multiset<K>, extraWeight: real): SetScore {
    MatchedAtMost(expected, actual);
    FromCounts(|expected * actual|, |expected|, |actual|, extraWeight)
  }

  lemma MatchedAtMost<K>(expected: multiset<K>, actual: multiset<K>)
    ensures |expected * actual| <= |expected| && |expected * actual| <= |actual|
    ensures |expected * actual| == |expected| - |expected - actual|
    ensures |expected * actual| == |actual| - |actual - expected|
  {
    assert expected == expected * actual + (expected - actual);
    assert actual == expected * actual + (actual - expected);
  }

  /** The share of matched keys less what the extra keys cost, never below zero. */
  function Penalised(matched: nat, extra: nat, expected: nat, extraWeight: real): real {
    Max(0.0, (matched as real - extraWeight * extra as real) / (if expected < 1 then 1.0 else expected as real))
  }

  function Ratio(part: nat, whole: nat): real
    requires whole > 0
  {
    part as real / whole as real
  }

  function FromCounts(matched: nat, expected: nat, actual: nat, extraWeight: real): SetScore
    requires matched <= expected && matched <= actual
  {
    SetScore(
      if expected == 0 && actual == 0 then 1.0 else Penalised(matched, actual - matched, expected, extraWeight),
      if actual == 0 then (if expected == 0 then 1.0 else 0.0) else Ratio(matched, actual),
      if expected == 0 then 1.0 else Ratio(matched, expected),
      matched, expected, actual, expected - matched, actual - matched)
  }

  // ---------- The single pass ----------

  function CountOf<K>(counts: map<K, nat>, key: K): nat {
    if key in counts then counts[key] else 0
  }

  ghost predicate Counts<K(!new)>(counts: map<K, nat>, keys: multiset<K>) {
    forall key :: CountOf(counts, key) == keys[key]
  }

  method CountKeys<K(==, !new)>(keys: seq<K>) returns (counts: map<K, nat>)
    ensures Counts(counts, multiset(keys))
  {
    counts := map[];
    for i := 0 to |keys|
      invariant Counts(counts, multiset(keys[..i]))
    {
      assert keys[..i + 1] == keys[..i] + [keys[i]];
      counts := counts[keys[i] := CountOf(counts, keys[i]) + 1];
    }
    assert keys[..|keys|] == keys;
  }

  lemma LeftAfterOneMore<K(!new)>(counts: map<K, nat>, expected: multiset<K>, actual: multiset<K>, key: K)
    requires Counts(counts, expected - actual)
    ensures var remaining := CountOf(counts, key);
            Counts(if remaining > 0 then counts[key := remaining - 1] else counts, expected - (actual + multiset{key}))
  {
    var remaining := CountOf(counts, key);
    var after := if remaining > 0 then counts[key := remaining - 1] else counts;
    forall k ensures CountOf(after, k) == (expected - (actual + multiset{key}))[k] {
      assert CountOf(counts, k) == (expected - actual)[k];
    }
  }

  /** Matches each actual key with one expected key not matched yet. */
  method MatchKeys<K(==, !new)>(expected: map<K, nat>, ghost keys: multiset<K>, actualKeys: seq<K>)
      returns (matchedCount: nat, extraCount: nat)
    requires Counts(expected, keys)
    ensures matchedCount == |keys * multiset(actualKeys)| && matchedCount + extraCount == |actualKeys|
  {
    hide CountOf, Counts;
    var remainingExpected := expected;
    assert keys - multiset(actualKeys[..0]) == keys;
    matchedCount, extraCount := 0, 0;
    for i := 0 to |actualKeys|
      invariant Counts(remainingExpected, keys - multiset(actualKeys[..i]))
      invariant matchedCount == |keys * multiset(actualKeys[..i])|
      invariant matchedCount + extraCount == i
    {
      var key := actualKeys[i];
      assert actualKeys[..i + 1] == actualKeys[..i] + [key];
      LeftAfterOneMore(remainingExpected, keys, multiset(actualKeys[..i]), key);
      OneMoreMatched(keys, multiset(actualKeys[..i]), key);
      CountedKey(remainingExpected, keys - multiset(actualKeys[..i]), key);
      var remaining := CountOf(remainingExpected, key);
      if remaining > 0 {
        matchedCount := matchedCount + 1;
        remainingExpected := remainingExpected[key := remaining - 1];
      } else {
        extraCount := extraCount + 1;
      }
    }
    assert actualKeys[..|actualKeys|] == actualKeys;
  }

  method ScoreExactSet<K(==, !new)>(expectedKeys: seq<K>, actualKeys: seq<K>, extraWeight: real)
      returns (score: SetScore)
    ensures score == ScoreOf(multiset(expectedKeys), multiset(actualKeys), extraWeight)
  {
    hide Penalised, Ratio, CountOf, Counts;
    var remainingExpected := CountKeys(expectedKeys);
    var matchedCount, extraCount := MatchKeys(remainingExpected, multiset(expectedKeys), actualKeys);
    MatchedAtMost(multiset(expectedKeys), multiset(actualKeys));
    var missingCount := |expectedKeys| - matchedCount;
    var precision := if |actualKeys| == 0 then (if |expectedKeys| == 0 then 1.0 else 0.0)
                     else Ratio(matchedCount, |actualKeys|);
    var recall := if |expectedKeys| == 0 then 1.0 else Ratio(matchedCount, |expectedKeys|);
    var value := if |expectedKeys| == 0 && |actualKeys| == 0 then 1.0
                 else Penalised(matchedCount, extraCount, |expectedKeys|, extraWeight);
    score := SetScore(value, precision, recall, matchedCount, |expectedKeys|, |actualKeys|, missingCount, extraCount);
  }

  lemma CountedKey<K(!new)>(counts: map<K, nat>, keys: multiset<K>, key: K)
    requires Counts(counts, keys)
    ensures CountOf(counts, key) == keys[key]
  {}

  lemma OneMoreMatched<K>(expected: multiset<K>, actual: multiset<K>, key: K)
    ensures |expected * (actual + multiset{key})| == |expected * actual| + if (expected - actual)[key] > 0 then 1 else 0
  {
    if (expected - actual)[key] > 0 {
      assert expected * (actual + multiset{key}) == expected * actual + multiset{key};
    } else {
      assert expected * (actual + multiset{key}) == expected * actual;
    }
  }

  // ---------- What the counts and the score say ----------

  /** Every actual key is matched or extra, and every expected key is matched or missing. */
  lemma CountsAreConserved<K>(expected: multiset<K>, actual: multiset<K>, extraWeight: real)
    ensures var s := ScoreOf(expected, actual, extraWeight);
            && s.matchedCount + s.extraCount == |actual| && s.matchedCount + s.missingCount == |expected|
            && s.missingCount == |expected - actual| && s.extraCount == |actual - expected|
  {
    MatchedAtMost(expected, actual);
  }

  lemma RatioAtMostOne(a: real, d: real)
    requires d > 0.0 && a <= d
    ensures a / d <= 1.0 && (a / d == 1.0 <==> a == d)
  {
    assert a / d * d == a;
  }

  lemma FullMarks(matched: nat, expected: nat, actual: nat, extraWeight: real)
    requires matched <= expected && matched <= actual && extraWeight > 0.0
    ensures 0.0 <= FromCounts(matched, expected, actual, extraWeight).score <= 1.0
    ensures FromCounts(matched, expected, actual, extraWeight).score == 1.0 <==>
            matched == expected && matched == actual
  {
    var cost := extraWeight * (actual - matched) as real;
    assert cost >= 0.0 && (actual > matched ==> cost > 0.0);
    if expected > 0 { RatioAtMostOne(matched as real - cost, expected as real); }
  }

  lemma RatioExactly(part: nat, whole: nat)
    requires whole > 0
    ensures Ratio(part, whole) * whole as real == part as real
  {}

  /** A score above zero, times the expected keys, is the matched keys less the weight of each extra key; it is zero
      exactly when the extra keys outweigh the matched ones. */
  lemma PenalisedExactly(matched: nat, extra: nat, expected: nat, extraWeight: real)
    requires expected > 0
    ensures var score, gained := Penalised(matched, extra, expected, extraWeight),
                                 matched as real - extraWeight * extra as real;
            if gained > 0.0 then score > 0.0 && score * expected as real == gained else score == 0.0
  {
    var gained, whole := matched as real - extraWeight * extra as real, expected as real;
    assert gained / whole * whole == gained;
  }

  lemma NothingExpected(extra: nat, extraWeight: real)
    requires extraWeight > 0.0
    ensures Penalised(0, extra, 0, extraWeight) == 0.0
  {
    assert extraWeight * extra as real >= 0.0;
  }

  lemma FromCountsExactly(matched: nat, expected: nat, actual: nat, extraWeight: real)
    requires matched <= expected && matched <= actual && extraWeight > 0.0
    ensures Scores(FromCounts(matched, expected, actual, extraWeight), matched, expected, actual, extraWeight)
  {
    hide Penalised, Ratio;
    if actual > 0 { RatioExactly(matched, actual); }
    if expected > 0 { RatioExactly(matched, expected); }
    NothingExpected(actual, extraWeight);
  }

  /** Precision is the share of the actual keys that were matched, recall that of the expected ones. Where there is
      nothing to divide by, both are full marks, but precision is nothing when keys were expected, and extra keys where
      none was expected score nothing. */
  ghost predicate Scores(s: SetScore, matched: nat, expected: nat, actual: nat, extraWeight: real)
    requires matched <= actual
  {
    && s.expectedCount == expected && s.actualCount == actual && s.matchedCount == matched
    && (if expected == 0 && actual == 0 then s.score == 1.0
        else if expected == 0 then s.score == 0.0
        else s.score == Penalised(matched, actual - matched, expected, extraWeight))
    && (if actual == 0 then s.precision == (if expected == 0 then 1.0 else 0.0)
        else s.precision * actual as real == matched as real)
    && (if expected == 0 then s.recall == 1.0 else s.recall * expected as real == matched as real)
  }

  /** The three shares are those of the keys both sides have. */
  lemma ScoresExactly<K>(expected: multiset<K>, actual: multiset<K>, extraWeight: real)
    requires extraWeight > 0.0
    ensures |expected * actual| <= |actual|
    ensures Scores(ScoreOf(expected, actual, extraWeight), |expected * actual|, |expected|, |actual|, extraWeight)
  {
    hide FromCounts, Scores;
    MatchedAtMost(expected, actual);
    FromCountsExactly(|expected * actual|, |expected|, |actual|, extraWeight);
  }

  /** The score never exceeds 1, and is 1 exactly for the expected keys, each exactly as often. */
  lemma ScoreIsOneExactly<K>(expected: multiset<K>, actual: multiset<K>, extraWeight: real)
    requires extraWeight > 0.0
    ensures 0.0 <= ScoreOf(expected, actual, extraWeight).score <= 1.0
    ensures ScoreOf(expected, actual, extraWeight).score == 1.0 <==> expected == actual
  {
    hide FromCounts;
    MatchedAtMost(expected, actual);
    FullMarks(|expected * actual|, |expected|, |actual|, extraWeight);
    NothingLeftIsEmpty(expected - actual);
    NothingLeftIsEmpty(actual - expected);
    if |expected - actual| == 0 && |actual - expected| == 0 { assert expected == actual; }
  }

  lemma NothingLeftIsEmpty<K>(m: multiset<K>)
    ensures |m| == 0 ==> m == multiset{}
  {}

  // ---------- Choosing among the accepted sets ----------

  /** Higher score, then higher recall, then higher precision. */
  predicate Beats(candidate: SetScore, best: SetScore) {
    if candidate.score != best.score then candidate.score > best.score
    else if candidate.recall != best.recall then candidate.recall > best.recall
    else candidate.precision > best.precision
  }

  function Best(scores: seq<SetScore>): SetScore
    requires scores != []
  {
    if |scores| == 1 then scores[0]
    else
      var best, candidate := Best(scores[..|scores| - 1]), scores[|scores| - 1];
      if Beats(candidate, best) then candidate else best
  }

  lemma {:induction false} BestIsUnbeaten(scores: seq<SetScore>)
    requires scores != []
    ensures Best(scores) in scores && forall s :: s in scores ==> !Beats(s, Best(scores))
  {
    if |scores| > 1 {
      BestIsUnbeaten(scores[..|scores| - 1]);
      assert scores == scores[..|scores| - 1] + [scores[|scores| - 1]];
    }
  }

  function KeysOf<T, K>(operations: seq<T>, key: T -> K): seq<K> {
    if operations == [] then [] else [key(operations[0])] + KeysOf(operations[1..], key)
  }

  /** The keys of the operations, one for each and in their order. */
  lemma {:induction false} KeysOfEach<T, K>(operations: seq<T>, key: T -> K, i: nat)
    requires i < |operations|
    ensures |KeysOf(operations, key)| == |operations| && KeysOf(operations, key)[i] == key(operations[i])
  {
    if |operations| > 1 { KeysOfEach(operations[1..], key, if i == 0 then 0 else i - 1); }
  }

  const OPERATION_EXTRA_WEIGHT := 3.0

  ghost function OperationScore<T, K>(candidate: seq<T>, actual: seq<T>, key: T -> K): SetScore {
    ScoreOf(multiset(KeysOf(candidate, key)), multiset(KeysOf(actual, key)), OPERATION_EXTRA_WEIGHT)
  }

  ghost function OperationScores<T, K>(candidates: seq<seq<T>>, actual: seq<T>, key: T -> K): (scores: seq<SetScore>)
    ensures |scores| == |candidates|
  {
    if candidates == [] then []
    else [OperationScore(candidates[0], actual, key)] + OperationScores(candidates[1..], actual, key)
  }

  /** The operation part of `scoreBottleCheckSemanticOutput`. */
  ghost function SemanticScore<T, K>(expected: seq<T>, accepted: seq<seq<T>>, actual: seq<T>, key: T -> K): SetScore {
    Best(OperationScores([expected] + accepted, actual, key))
  }

  predicate Attains(score: SetScore, selected: SetScore) {
    score.score == selected.score && score.recall == selected.recall && score.precision == selected.precision
  }

  ghost function FirstAttaining<T, K>(candidates: seq<seq<T>>, selected: SetScore, actual: seq<T>, key: T -> K)
    : Option<seq<T>> {
    if candidates == [] then None
    else if Attains(OperationScore(candidates[0], actual, key), selected) then Some(candidates[0])
    else FirstAttaining(candidates[1..], selected, actual, key)
  }

  ghost function SelectExpectedOperations<T, K>(expected: seq<T>, accepted: seq<seq<T>>, actual: seq<T>, key: T -> K)
    : seq<T> {
    FirstAttaining([expected] + accepted, SemanticScore(expected, accepted, actual, key), actual, key).GetOr(expected)
  }

  lemma {:induction false} ScoresAreOfCandidates<T, K>(candidates: seq<seq<T>>, actual: seq<T>, key: T -> K)
    ensures forall c :: c in candidates ==> OperationScore(c, actual, key) in OperationScores(candidates, actual, key)
    ensures forall s :: s in OperationScores(candidates, actual, key) ==>
              exists c :: c in candidates && OperationScore(c, actual, key) == s
  {
    hide OperationScore;
    if candidates != [] {
      ScoresAreOfCandidates(candidates[1..], actual, key);
      assert candidates == [candidates[0]] + candidates[1..];
    }
  }

  /** The first candidate with this score. */
  ghost predicate IsFirstAttaining<T, K>(candidates: seq<seq<T>>, selected: SetScore, actual: seq<T>, key: T -> K,
      k: nat)
  {
    && k < |candidates| && Attains(OperationScore(candidates[k], actual, key), selected)
    && forall j :: 0 <= j < k ==> !Attains(OperationScore(candidates[j], actual, key), selected)
  }

  lemma {:induction false} FirstAttainingFinds<T, K>(candidates: seq<seq<T>>, selected: SetScore,
      actual: seq<T>, key: T -> K) returns (k: nat)
    requires exists c :: c in candidates && Attains(OperationScore(c, actual, key), selected)
    ensures IsFirstAttaining(candidates, selected, actual, key, k)
    ensures FirstAttaining(candidates, selected, actual, key) == Some(candidates[k])
  {
    hide OperationScore;
    k := 0;
    if !Attains(OperationScore(candidates[0], actual, key), selected) {
      var c :| c in candidates && Attains(OperationScore(c, actual, key), selected);
      assert c in candidates[1..];
      k := FirstAttainingFinds(candidates[1..], selected, actual, key);
      k := k + 1;
    }
  }

  /** At least as good: by score, then by recall, then by precision. */
  ghost predicate AtLeast(selected: SetScore, other: SetScore) {
    || selected.score > other.score
    || (selected.score == other.score && selected.recall > other.recall)
    || (selected.score == other.score && selected.recall == other.recall && selected.precision >= other.precision)
  }

  /** The selector takes the first of the sets that score best, and the semantic score is that set's score. */
  lemma SelectedSetIsBest<T, K>(expected: seq<T>, accepted: seq<seq<T>>, actual: seq<T>, key: T -> K)
      returns (k: nat)
    ensures var candidates := [expected] + accepted;
            && IsFirstAttaining(candidates, SemanticScore(expected, accepted, actual, key), actual, key, k)
            && SelectExpectedOperations(expected, accepted, actual, key) == candidates[k]
            && (forall c :: c in candidates ==>
                  AtLeast(OperationScore(candidates[k], actual, key), OperationScore(c, actual, key)))
  {
    hide OperationScore;
    var candidates := [expected] + accepted;
    var scores := OperationScores(candidates, actual, key);
    BestIsUnbeaten(scores);
    ScoresAreOfCandidates(candidates, actual, key);
    k := FirstAttainingFinds(candidates, Best(scores), actual, key);
  }

  /** The semantic score is 1 exactly when the proposed operations are one of the accepted sets. */
  lemma SemanticScoreIsOneExactly<T, K>(expected: seq<T>, accepted: seq<seq<T>>, actual: seq<T>, key: T -> K)
    ensures SemanticScore(expected, accepted, actual, key).score == 1.0 <==>
            exists c :: c in [expected] + accepted && multiset(KeysOf(c, key)) == multiset(KeysOf(actual, key))
  {
    hide ScoreOf, KeysOf;
    var candidates := [expected] + accepted;
    var scores := OperationScores(candidates, actual, key);
    BestIsUnbeaten(scores);
    ScoresAreOfCandidates(candidates, actual, key);
    forall c
      ensures OperationScore(c, actual, key).score <= 1.0
      ensures OperationScore(c, actual, key).score == 1.0 <==> multiset(KeysOf(c, key)) == multiset(KeysOf(actual, key))
    {
      ScoreIsOneExactly(multiset(KeysOf(c, key)), multiset(KeysOf(actual, key)), OPERATION_EXTRA_WEIGHT);
    }
  }
}
