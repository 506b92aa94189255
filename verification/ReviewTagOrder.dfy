/** Which vocabularies report the same names in whatever order their tags are listed. */
module ReviewTagOrder {
  import opened Wrappers
  import opened ReviewTags

  const ONLY_WORDS: set<string> := {"only", "just"}
  const LACK_WORDS: set<string> := {"shortage", "lack"}

  /** Some text mentions the phrase without negating it: it does not start with a negator, or it is a lone "not" or
      "no" that some exempting word can follow without forming a longer phrase. */
  ghost predicate CanBeReported(vocabulary: seq<Tag>, phrase: Phrase) {
    && phrase != []
    && (|| !Negates(phrase, 0)
        || (phrase == ["not"] && exists word :: word in ONLY_WORDS && !IsKnown(vocabulary, ["not", word]))
        || (phrase == ["no"] && exists word :: word in LACK_WORDS && !IsKnown(vocabulary, ["no", word])))
  }

  /** Tags with the same reportable words have the same name. */
  ghost predicate ReportableNamesAreDistinct(vocabulary: seq<Tag>) {
    forall tag, other | tag in vocabulary && other in vocabulary && tag.words == other.words ::
      CanBeReported(vocabulary, tag.words) ==> tag.name == other.name
  }

  ghost predicate AllNamed(vocabulary: seq<Tag>) {
    forall tag :: tag in vocabulary ==> tag.name != ""
  }

  ghost predicate Reordered(vocabulary: seq<Tag>, other: seq<Tag>) {
    multiset(other) == multiset(vocabulary)
  }

  lemma ReorderedHasSameTags(vocabulary: seq<Tag>, other: seq<Tag>)
    requires Reordered(vocabulary, other)
    ensures forall tag :: tag in vocabulary <==> tag in other
  {
    forall tag ensures tag in vocabulary <==> tag in other {
      assert tag in vocabulary <==> tag in multiset(vocabulary);
      assert tag in other <==> tag in multiset(other);
    }
  }

  // ---------- Every order knows the same phrases ----------

  lemma ReorderedKnowsTheSame(vocabulary: seq<Tag>, other: seq<Tag>)
    requires AllNamed(vocabulary) && forall tag :: tag in vocabulary <==> tag in other
    ensures SameKnown(vocabulary, other)
  {
    forall phrase ensures IsKnown(vocabulary, phrase) <==> IsKnown(other, phrase) {
      KnownExactly(vocabulary, phrase);
      KnownExactly(other, phrase);
      assert Owners(vocabulary, phrase) == Owners(other, phrase);
    }
  }

  ghost predicate HasWords(vocabulary: seq<Tag>, phrase: Phrase) {
    exists tag :: tag in vocabulary && tag.words == phrase
  }

  lemma KnownExactly(vocabulary: seq<Tag>, phrase: Phrase)
    requires AllNamed(vocabulary)
    ensures IsKnown(vocabulary, phrase) <==>
            phrase != []
            && (HasWords(vocabulary, phrase) || exists name :: name != "" && Owners(vocabulary, phrase) == {name})
  {
    NamedTagIsLast(vocabulary, phrase);
    var named := NamedTag(vocabulary, phrase);
    if phrase != [] && named.Some? { assert Means(vocabulary, phrase, named.value); }
    if phrase != [] && named.None? {
      if name :| name != "" && Owners(vocabulary, phrase) == {name} { assert Means(vocabulary, phrase, name); }
    }
  }

  /** A phrase of tags with one name means the same in every order. */
  lemma OneNameMeansTheSame(vocabulary: seq<Tag>, other: seq<Tag>, phrase: Phrase, name: string)
    requires forall tag :: tag in vocabulary <==> tag in other
    requires forall tag, u :: tag in vocabulary && u in vocabulary && tag.words == phrase && u.words == phrase ==>
               tag.name == u.name
    ensures Means(vocabulary, phrase, name) <==> Means(other, phrase, name)
  {
    NamedTagIsLast(vocabulary, phrase);
    NamedTagIsLast(other, phrase);
    assert Owners(vocabulary, phrase) == Owners(other, phrase);
  }

  // ---------- What is reported can be reported ----------

  lemma ReportedPhrase(vocabulary: seq<Tag>, tokens: seq<string>, cuts: seq<nat>, j: nat, name: string)
      returns (phrase: Phrase)
    requires ValidCuts(tokens, cuts) && j < |cuts| && ReportsAt(vocabulary, tokens, cuts, j, name)
    ensures CanBeReported(vocabulary, phrase) && Means(vocabulary, phrase, name)
    ensures cuts[j] + |phrase| <= |tokens| && phrase == tokens[cuts[j]..cuts[j] + |phrase|]
            && |phrase| == LongestAt(vocabulary, tokens, cuts[j])
  {
    hide Means, LongestUpTo;
    var at := cuts[j];
    var n := LongestAt(vocabulary, tokens, at);
    LongestIsLongest(vocabulary, tokens, at, |tokens| - at);
    phrase := tokens[at..at + n];
    assert !NegatesUntil(tokens, cuts, j, j);
    assert !Negates(tokens, at);
    if Negates(phrase, 0) {
      assert n == 1 && at + 1 < |tokens|;
      var pair := [tokens[at], tokens[at + 1]];
      assert tokens[at..at + 2] == pair && !KnownAt(vocabulary, tokens, at, 2);
      assert phrase == [tokens[at]];
    }
  }

  lemma SameReports(vocabulary: seq<Tag>, other: seq<Tag>, tokens: seq<string>, name: string)
    requires AllNamed(vocabulary) && ReportableNamesAreDistinct(vocabulary)
    requires forall tag :: tag in vocabulary <==> tag in other
    requires Reported(vocabulary, tokens, name)
    ensures Reported(other, tokens, name)
  {
    hide Means, Negates, LongestUpTo, CanBeReported;
    ReorderedKnowsTheSame(vocabulary, other);
    SameCuts(vocabulary, other, tokens, 0);
    CutsAreValid(vocabulary, tokens, 0);
    var cuts := Cuts(vocabulary, tokens, 0);
    var j: nat :| j < |cuts| && ReportsAt(vocabulary, tokens, cuts, j, name);
    var phrase := ReportedPhrase(vocabulary, tokens, cuts, j, name);
    SameLongest(vocabulary, other, tokens, cuts[j], |tokens| - cuts[j]);
    OneNameMeansTheSame(vocabulary, other, phrase, name);
    LongestIsLongest(other, tokens, cuts[j], |tokens| - cuts[j]);
    assert ReportsAt(other, tokens, cuts, j, name);
  }

  // ---------- What can be reported is reported in some text ----------

  /** A text that is one known phrase reports one name. */
  lemma WholeTextReportsOne(vocabulary: seq<Tag>, tokens: seq<string>, name: string)
    requires Means(vocabulary, tokens, name)
    ensures Reported(vocabulary, tokens, name) <==> !Negates(tokens, 0)
    ensures forall other :: Reported(vocabulary, tokens, other) ==> other == name
  {
    hide Means, Negates;
    assert tokens != [] by { NoWordsMeanNothing(vocabulary, tokens, name); }
    assert tokens[0..|tokens|] == tokens;
    assert KnownAt(vocabulary, tokens, 0, |tokens|);
    assert LongestAt(vocabulary, tokens, 0) == |tokens|;
    var cuts := Cuts(vocabulary, tokens, 0);
    CutsAreValid(vocabulary, tokens, 0);
    NothingLeft(vocabulary, tokens);
    assert cuts == [0];
    MeansOneName(vocabulary, tokens, name);
    assert Negated(tokens, cuts, 0) <==> Negates(tokens, 0) by {
      assert Negates(tokens, 0) ==> NegatesUntil(tokens, cuts, 0, 0);
    }
    assert ReportsAt(vocabulary, tokens, cuts, 0, name) <==> !Negates(tokens, 0);
  }

  lemma NoWordsMeanNothing(vocabulary: seq<Tag>, phrase: Phrase, name: string)
    requires Means(vocabulary, phrase, name)
    ensures phrase != [] && name != ""
  {}

  predicate Exempts(negator: string, word: string) {
    (negator == "not" && word in ONLY_WORDS) || (negator == "no" && word in LACK_WORDS)
  }

  /** "not only" reports a tag "not", unless it is a phrase of its own. */
  lemma ExemptTextReports(vocabulary: seq<Tag>, negator: string, word: string, name: string)
    requires Exempts(negator, word) && Means(vocabulary, [negator], name) && !IsKnown(vocabulary, [negator, word])
    ensures Reported(vocabulary, [negator, word], name)
  {
    hide Means;
    var tokens := [negator, word];
    assert tokens[0..1] == [negator] && tokens[0..2] == tokens;
    assert KnownAt(vocabulary, tokens, 0, 1) && !KnownAt(vocabulary, tokens, 0, 2);
    assert LongestUpTo(vocabulary, tokens, 0, 1) == 1;
    assert LongestAt(vocabulary, tokens, 0) == 1;
    CutsAreValid(vocabulary, tokens, 0);
    NextCut(vocabulary, tokens, 0);
    var cuts := Cuts(vocabulary, tokens, 0);
    assert cuts[0] == 0 && !Negates(tokens, 0);
    forall a: nat | a <= 0 ensures !NegatesUntil(tokens, cuts, a, 0) {}
    assert ReportsAt(vocabulary, tokens, cuts, 0, name);
  }

  /** An exempt text reports the lone negator's name and at most one name more, that of the second word. */
  lemma ExemptTextReportsTwo(vocabulary: seq<Tag>, negator: string, word: string, name: string, other: string)
    requires Exempts(negator, word) && Means(vocabulary, [negator], name) && !IsKnown(vocabulary, [negator, word])
    requires Reported(vocabulary, [negator, word], other) && other != name
    ensures Means(vocabulary, [word], other)
  {
    hide Means;
    var tokens := [negator, word];
    assert tokens[0..1] == [negator] && tokens[0..2] == tokens && tokens[1..2] == [word];
    assert KnownAt(vocabulary, tokens, 0, 1) && !KnownAt(vocabulary, tokens, 0, 2);
    assert LongestUpTo(vocabulary, tokens, 0, 1) == 1;
    assert LongestAt(vocabulary, tokens, 0) == 1;
    CutsAreValid(vocabulary, tokens, 0);
    NextCut(vocabulary, tokens, 0);
    NextCut(vocabulary, tokens, 1);
    NothingLeft(vocabulary, tokens);
    var cuts := Cuts(vocabulary, tokens, 0);
    assert cuts == [0, 1];
    MeansOneName(vocabulary, [negator], name);
    assert ReportsAt(vocabulary, tokens, cuts, 1, other);
    LongestIsLongest(vocabulary, tokens, 1, 1);
  }

  // ---------- The exact condition ----------

  ghost predicate OrderNeverShows(vocabulary: seq<Tag>) {
    forall other, tokens, name | Reordered(vocabulary, other) ::
      Reported(vocabulary, tokens, name) <==> Reported(other, tokens, name)
  }

  lemma LastTagMeans(vocabulary: seq<Tag>, tag: Tag)
    requires vocabulary != [] && vocabulary[|vocabulary| - 1] == tag && tag.words != [] && tag.name != ""
    ensures Means(vocabulary, tag.words, tag.name)
  {}

  lemma ExemptingWord(vocabulary: seq<Tag>, phrase: Phrase) returns (word: string)
    requires CanBeReported(vocabulary, phrase) && Negates(phrase, 0)
    ensures |phrase| == 1 && Exempts(phrase[0], word) && !IsKnown(vocabulary, [phrase[0], word])
  {
    if phrase == ["not"] {
      word :| word in ONLY_WORDS && !IsKnown(vocabulary, ["not", word]);
    } else {
      word :| word in LACK_WORDS && !IsKnown(vocabulary, ["no", word]);
    }
  }

  lemma ExemptingWordsDoNotNegate(negator: string, word: string)
    requires Exempts(negator, word)
    ensures !Negates([word], 0)
  {}

  /** Listing `t` last or `u` last shows in a text of their lone negator, or in its second word alone. */
  lemma ExemptOrderShows(vocabulary: seq<Tag>, first: seq<Tag>, second: seq<Tag>, negator: string, word: string,
      name: string, other: string)
    requires Reordered(vocabulary, first) && Reordered(vocabulary, second) && name != other && Exempts(negator, word)
    requires Means(first, [negator], name) && !IsKnown(first, [negator, word])
    requires Means(second, [negator], other) && !IsKnown(second, [negator, word])
    ensures !OrderNeverShows(vocabulary)
  {
    hide Means, Negates, Reported, IsKnown;
    var tokens := [negator, word];
    ExemptTextReports(first, negator, word, name);
    ExemptTextReports(second, negator, word, other);
    ExemptingWordsDoNotNegate(negator, word);
    if OrderNeverShows(vocabulary) {
      assert Reported(vocabulary, tokens, name) && Reported(vocabulary, tokens, other);
      assert Reported(first, tokens, other) && Reported(second, tokens, name);
      ExemptTextReportsTwo(first, negator, word, name, other);
      ExemptTextReportsTwo(second, negator, word, other, name);
      WholeTextReportsOne(first, [word], other);
      assert Reported(vocabulary, [word], other) && Reported(second, [word], other);
      WholeTextReportsOne(second, [word], name);
    }
  }

  lemma OrderShows(vocabulary: seq<Tag>, t: Tag, u: Tag)
    requires AllNamed(vocabulary) && t in vocabulary && u in vocabulary
    requires t.words == u.words && CanBeReported(vocabulary, t.words) && t.name != u.name
    ensures !OrderNeverShows(vocabulary)
  {
    hide Means, Negates, Reported, IsKnown;
    var phrase := t.words;
    var first, second := MovedLast(vocabulary, t), MovedLast(vocabulary, u);
    MovedLastMeans(vocabulary, t);
    MovedLastMeans(vocabulary, u);
    LastTagMeans(first, t);
    LastTagMeans(second, u);
    hide CanBeReported;
    if Negates(phrase, 0) {
      var word := ExemptingWord(vocabulary, phrase);
      assert phrase == [phrase[0]];
      ReorderedHasSameTags(vocabulary, first);
      ReorderedHasSameTags(vocabulary, second);
      ReorderedKnowsTheSame(vocabulary, first);
      ReorderedKnowsTheSame(vocabulary, second);
      ExemptOrderShows(vocabulary, first, second, phrase[0], word, t.name, u.name);
    } else {
      WholeTextReportsOne(first, phrase, t.name);
      WholeTextReportsOne(second, phrase, u.name);
      assert OrderNeverShows(vocabulary) ==> Reported(vocabulary, phrase, t.name) && Reported(second, phrase, t.name);
    }
  }

  /** No order of the tags shows in any text exactly when tags with the same reportable words have the same name. */
  lemma OrderNeverShowsExactly(vocabulary: seq<Tag>)
    requires AllNamed(vocabulary)
    ensures OrderNeverShows(vocabulary) <==> ReportableNamesAreDistinct(vocabulary)
  {
    hide Reported, CanBeReported;
    if ReportableNamesAreDistinct(vocabulary) {
      forall other, tokens, name | Reordered(vocabulary, other)
        ensures Reported(vocabulary, tokens, name) <==> Reported(other, tokens, name)
      {
        ReorderedHasSameTags(vocabulary, other);
        ReorderedStaysDistinct(vocabulary, other);
        if Reported(vocabulary, tokens, name) { SameReports(vocabulary, other, tokens, name); }
        if Reported(other, tokens, name) { SameReports(other, vocabulary, tokens, name); }
      }
    } else {
      var t, u :| t in vocabulary && u in vocabulary && t.words == u.words
                  && CanBeReported(vocabulary, t.words) && t.name != u.name;
      OrderShows(vocabulary, t, u);
    }
  }

  lemma ReorderedStaysDistinct(vocabulary: seq<Tag>, other: seq<Tag>)
    requires AllNamed(vocabulary) && ReportableNamesAreDistinct(vocabulary)
    requires forall tag :: tag in vocabulary <==> tag in other
    ensures AllNamed(other) && ReportableNamesAreDistinct(other)
  {
    hide IsKnown, Negates;
    ReorderedKnowsTheSame(vocabulary, other);
    forall phrase ensures CanBeReported(vocabulary, phrase) <==> CanBeReported(other, phrase) {}
  }

  /** Two tags with the one word "oak": the one listed last is the one reported. */
  lemma LastTagIsReported()
    ensures var peat, wood := Tag("peat", ["oak"], []), Tag("wood", ["oak"], []);
            && Reported([peat, wood], ["oak"], "wood") && !Reported([peat, wood], ["oak"], "peat")
            && Reported([wood, peat], ["oak"], "peat") && !Reported([wood, peat], ["oak"], "wood")
  {
    hide Reported, Means;
    var peat, wood := Tag("peat", ["oak"], []), Tag("wood", ["oak"], []);
    LastTagMeans([peat, wood], wood);
    LastTagMeans([wood, peat], peat);
    WholeTextReportsOne([peat, wood], ["oak"], "wood");
    WholeTextReportsOne([wood, peat], ["oak"], "peat");
  }
}
