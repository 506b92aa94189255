/** Which known tasting words a review text mentions. Texts and vocabulary come as word tokens. */
module ReviewTags {
  import opened Wrappers
  import opened Text

  type Phrase = seq<string>

  datatype Tag = Tag(name: string, words: Phrase, synonyms: seq<Phrase>)

  // ---------- What a phrase means ----------

  /** The names of the tags that list `phrase` as a synonym. */
  ghost function Owners(vocabulary: seq<Tag>, phrase: Phrase): set<string> {
    set tag | tag in vocabulary && phrase in tag.synonyms :: tag.name
  }

  /** The name of the last tag whose own name is this phrase. */
  function NamedTag(vocabulary: seq<Tag>, phrase: Phrase): Option<string> {
    if vocabulary == [] then None
    else
      var last := vocabulary[|vocabulary| - 1];
      if last.words == phrase then Some(last.name) else NamedTag(vocabulary[..|vocabulary| - 1], phrase)
  }

  /** The phrase stands for a tag of that name, else it is a synonym of tags with one name only. */
  ghost predicate Means(vocabulary: seq<Tag>, phrase: Phrase, name: string) {
    && phrase != [] && name != ""
    && var named := NamedTag(vocabulary, phrase);
       if named.Some? then named.value == name else Owners(vocabulary, phrase) == {name}
  }

  ghost predicate IsKnown(vocabulary: seq<Tag>, phrase: Phrase) {
    exists name :: Means(vocabulary, phrase, name)
  }

  // ---------- How the text is read ----------

  ghost predicate KnownAt(vocabulary: seq<Tag>, tokens: seq<string>, at: nat, n: nat) {
    at + n <= |tokens| && IsKnown(vocabulary, tokens[at..at + n])
  }

  /** The length of the longest known phrase of at most `n` tokens at `at`; 0 when there is none. */
  ghost function LongestUpTo(vocabulary: seq<Tag>, tokens: seq<string>, at: nat, n: nat): nat
    requires at + n <= |tokens|
  {
    if n == 0 || KnownAt(vocabulary, tokens, at, n) then n else LongestUpTo(vocabulary, tokens, at, n - 1)
  }

  ghost function LongestAt(vocabulary: seq<Tag>, tokens: seq<string>, at: nat): nat
    requires at <= |tokens|
  {
    LongestUpTo(vocabulary, tokens, at, |tokens| - at)
  }

  lemma {:induction false} LongestIsLongest(vocabulary: seq<Tag>, tokens: seq<string>, at: nat, n: nat)
    requires at + n <= |tokens|
    ensures var longest := LongestUpTo(vocabulary, tokens, at, n);
            && longest <= n
            && (longest > 0 ==> KnownAt(vocabulary, tokens, at, longest))
            && (forall k :: longest < k <= n ==> !KnownAt(vocabulary, tokens, at, k))
  {
    if n > 0 { LongestIsLongest(vocabulary, tokens, at, n - 1); }
  }

  /** The text from `from` on, cut into known phrases, longest first, and single tokens: where each part starts. */
  ghost function Cuts(vocabulary: seq<Tag>, tokens: seq<string>, from: nat): seq<nat>
    requires from <= |tokens|
    decreases |tokens| - from
  {
    if from == |tokens| then []
    else
      var n := LongestAt(vocabulary, tokens, from);
      LongestIsLongest(vocabulary, tokens, from, |tokens| - from);
      [from] + Cuts(vocabulary, tokens, if n == 0 then from + 1 else from + n)
  }

  /** Where the part starting at `at` ends. */
  ghost function PartEnd(vocabulary: seq<Tag>, tokens: seq<string>, at: nat): nat
    requires at < |tokens|
  {
    var n := LongestAt(vocabulary, tokens, at);
    if n == 0 then at + 1 else at + n
  }

  lemma NextCut(vocabulary: seq<Tag>, tokens: seq<string>, from: nat)
    requires from < |tokens|
    ensures from < PartEnd(vocabulary, tokens, from) <= |tokens|
    ensures Cuts(vocabulary, tokens, from) == [from] + Cuts(vocabulary, tokens, PartEnd(vocabulary, tokens, from))
  {
    LongestIsLongest(vocabulary, tokens, from, |tokens| - from);
  }

  /** The parts cover the text in order, without gap or overlap. */
  lemma {:induction false} PartsCoverText(vocabulary: seq<Tag>, tokens: seq<string>, from: nat, j: nat)
    requires from <= |tokens|
    ensures var cuts := Cuts(vocabulary, tokens, from);
            && (from < |tokens| ==> cuts != [] && cuts[0] == from)
            && (j < |cuts| ==>
                  cuts[j] < |tokens|
                  && PartEnd(vocabulary, tokens, cuts[j]) == if j + 1 < |cuts| then cuts[j + 1] else |tokens|)
    decreases |tokens| - from
  {
    if from < |tokens| {
      var end := PartEnd(vocabulary, tokens, from);
      NextCut(vocabulary, tokens, from);
      PartsCoverText(vocabulary, tokens, end, if j == 0 then 0 else j - 1);
    }
  }

  predicate Resets(token: string) {
    token in {".", ",", ";", ":", "!", "?", "(", ")", "but", "yet", "however", "though"}
  }

  /** The next token, or nothing. */
  function TokenAt(tokens: seq<string>, at: nat): string {
    if at < |tokens| then tokens[at] else ""
  }

  predicate Negates(tokens: seq<string>, at: nat)
    requires at < |tokens|
  {
    && tokens[at] in {"no", "not", "without", "neither", "nor", "lacks", "lacking"}
    && !(tokens[at] == "not" && TokenAt(tokens, at + 1) in {"only", "just"})
    && !(tokens[at] == "no" && TokenAt(tokens, at + 1) in {"shortage", "lack"})
  }

  ghost predicate ValidCuts(tokens: seq<string>, cuts: seq<nat>) {
    forall i :: 0 <= i < |cuts| ==> cuts[i] < |tokens|
  }

  /** Some part up to `j` starts with a negator, and none after it up to `j` starts with a reset. */
  ghost predicate Negated(tokens: seq<string>, cuts: seq<nat>, j: nat)
    requires j < |cuts| && ValidCuts(tokens, cuts)
  {
    exists a: nat :: a <= j && NegatesUntil(tokens, cuts, a, j)
  }

  ghost predicate NegatesUntil(tokens: seq<string>, cuts: seq<nat>, a: nat, j: nat)
    requires a <= j < |cuts| && ValidCuts(tokens, cuts)
  {
    Negates(tokens, cuts[a]) && forall b :: a < b <= j ==> !Resets(tokens[cuts[b]])
  }

  /** Part `j` is a phrase for `name`, not negated and not followed by "free". */
  ghost predicate ReportsAt(vocabulary: seq<Tag>, tokens: seq<string>, cuts: seq<nat>, j: nat, name: string)
    requires j < |cuts| && ValidCuts(tokens, cuts)
  {
    var at := cuts[j];
    var n := LongestAt(vocabulary, tokens, at);
    LongestIsLongest(vocabulary, tokens, at, |tokens| - at);
    && n > 0 && Means(vocabulary, tokens[at..at + n], name)
    && !Negated(tokens, cuts, j) && TokenAt(tokens, at + n) != "free"
  }

  lemma {:induction false} CutsAreValid(vocabulary: seq<Tag>, tokens: seq<string>, from: nat)
    requires from <= |tokens|
    ensures ValidCuts(tokens, Cuts(vocabulary, tokens, from))
    decreases |tokens| - from
  {
    if from < |tokens| {
      var n := LongestAt(vocabulary, tokens, from);
      LongestIsLongest(vocabulary, tokens, from, |tokens| - from);
      CutsAreValid(vocabulary, tokens, if n == 0 then from + 1 else from + n);
    }
  }

  ghost predicate ReportedIn(vocabulary: seq<Tag>, tokens: seq<string>, cuts: seq<nat>, name: string)
    requires ValidCuts(tokens, cuts)
  {
    exists j: nat :: j < |cuts| && ReportsAt(vocabulary, tokens, cuts, j, name)
  }

  /** Some part of the text is a mention of `name`. */
  ghost predicate Reported(vocabulary: seq<Tag>, tokens: seq<string>, name: string) {
    CutsAreValid(vocabulary, tokens, 0);
    ReportedIn(vocabulary, tokens, Cuts(vocabulary, tokens, 0), name)
  }

  // ---------- The phrase table ----------

  /** An insertion-ordered map; a phrase shared by different tags has no name. */
  datatype Entry = Entry(phrase: Phrase, name: Option<string>)

  function Lookup(entries: seq<Entry>, phrase: Phrase): Option<Option<string>> {
    if entries == [] then None
    else if entries[0].phrase == phrase then Some(entries[0].name)
    else Lookup(entries[1..], phrase)
  }

  function Put(entries: seq<Entry>, phrase: Phrase, name: Option<string>): seq<Entry> {
    if entries == [] then [Entry(phrase, name)]
    else if entries[0].phrase == phrase then [Entry(phrase, name)] + entries[1..]
    else [entries[0]] + Put(entries[1..], phrase, name)
  }

  lemma {:induction false} LookupAfterPut(entries: seq<Entry>, phrase: Phrase, name: Option<string>, other: Phrase)
    ensures Lookup(Put(entries, phrase, name), other) ==
            if other == phrase then Some(name) else Lookup(entries, other)
  {
    if entries != [] { LookupAfterPut(entries[1..], phrase, name, other); }
  }

  ghost predicate OneEntryEach(entries: seq<Entry>) {
    forall i, j :: 0 <= i < j < |entries| ==> entries[i].phrase != entries[j].phrase
  }

  lemma {:induction false} PutKeepsOneEach(entries: seq<Entry>, phrase: Phrase, name: Option<string>)
    requires OneEntryEach(entries)
    ensures OneEntryEach(Put(entries, phrase, name))
    ensures forall e :: e in Put(entries, phrase, name) ==> e.phrase == phrase || e in entries
  {
    if entries != [] && entries[0].phrase != phrase {
      RestHasOneEach(entries);
      PutKeepsOneEach(entries[1..], phrase, name);
    }
  }

  lemma RestHasOneEach(entries: seq<Entry>)
    requires entries != [] && OneEntryEach(entries)
    ensures OneEntryEach(entries[1..])
  {
    forall i, j | 0 <= i < j < |entries[1..]| ensures entries[1..][i].phrase != entries[1..][j].phrase {
      assert entries[1..][i] == entries[i + 1] && entries[1..][j] == entries[j + 1];
    }
  }

  lemma {:induction false} LookupFinds(entries: seq<Entry>, e: Entry)
    requires OneEntryEach(entries)
    ensures e in entries <==> Lookup(entries, e.phrase) == Some(e.name)
  {
    if entries != [] {
      RestHasOneEach(entries);
      LookupFinds(entries[1..], e);
      assert entries == [entries[0]] + entries[1..];
      forall i | 0 < i < |entries| && entries[i] == e ensures entries[0].phrase != e.phrase {}
    }
  }

  /** An entry for the synonyms claimed by these names. */
  ghost predicate Agrees(entry: Option<Option<string>>, owners: set<string>) {
    && (entry.None? <==> owners == {})
    && (entry.Some? && entry.value.Some? ==> owners == {entry.value.value})
    && (entry.Some? && entry.value.None? ==> exists a, b :: a in owners && b in owners && a != b)
  }

  /** The names claiming `phrase`: all of `vocabulary` and the first `n` synonyms of one more tag. */
  ghost function OwnersSoFar(vocabulary: seq<Tag>, tag: Tag, n: nat, phrase: Phrase): set<string>
    requires n <= |tag.synonyms|
  {
    Owners(vocabulary, phrase) + (if phrase in tag.synonyms[..n] then {tag.name} else {})
  }

  ghost predicate TableAgrees(entries: seq<Entry>, vocabulary: seq<Tag>, tag: Tag, n: nat)
    requires n <= |tag.synonyms|
  {
    OneEntryEach(entries)
    && forall phrase :: phrase != [] ==> Agrees(Lookup(entries, phrase), OwnersSoFar(vocabulary, tag, n, phrase))
  }

  function ClaimedName(entries: seq<Entry>, phrase: Phrase, name: string): Option<string> {
    var entry := Lookup(entries, phrase);
    if entry.Some? && entry.value != Some(name) then None else Some(name)
  }

  lemma ClaimKeepsAgreement(entries: seq<Entry>, vocabulary: seq<Tag>, tag: Tag, n: nat)
    requires n < |tag.synonyms| && TableAgrees(entries, vocabulary, tag, n)
    ensures var phrase := tag.synonyms[n];
            TableAgrees(if phrase == [] then entries else Put(entries, phrase, ClaimedName(entries, phrase, tag.name)),
                        vocabulary, tag, n + 1)
  {
    var phrase := tag.synonyms[n];
    assert tag.synonyms[..n + 1] == tag.synonyms[..n] + [phrase];
    var name := ClaimedName(entries, phrase, tag.name);
    PutKeepsOneEach(entries, phrase, name);
    forall other | other != [] && phrase != []
      ensures Agrees(Lookup(Put(entries, phrase, name), other), OwnersSoFar(vocabulary, tag, n + 1, other))
    {
      LookupAfterPut(entries, phrase, name, other);
      assert Agrees(Lookup(entries, other), OwnersSoFar(vocabulary, tag, n, other));
    }
  }

  lemma NextTagAgrees(entries: seq<Entry>, vocabulary: seq<Tag>, tag: Tag, next: Tag)
    requires TableAgrees(entries, vocabulary, tag, |tag.synonyms|)
    ensures TableAgrees(entries, vocabulary + [tag], next, 0)
  {
    forall phrase | phrase != []
      ensures OwnersSoFar(vocabulary + [tag], next, 0, phrase) == OwnersSoFar(vocabulary, tag, |tag.synonyms|, phrase)
    {
      assert tag.synonyms[..|tag.synonyms|] == tag.synonyms;
      OwnersOfOneMore(vocabulary, tag, phrase);
    }
  }

  lemma OwnersOfOneMore(vocabulary: seq<Tag>, tag: Tag, phrase: Phrase)
    ensures Owners(vocabulary + [tag], phrase) ==
            Owners(vocabulary, phrase) + if phrase in tag.synonyms then {tag.name} else {}
  {
    var all := vocabulary + [tag];
    forall name | name in Owners(vocabulary, phrase) + (if phrase in tag.synonyms then {tag.name} else {})
      ensures name in Owners(all, phrase)
    {
      if name in Owners(vocabulary, phrase) {
        var t :| t in vocabulary && phrase in t.synonyms && t.name == name;
        assert t in all;
      } else {
        assert tag in all;
      }
    }
  }

  // ---------- Patterns ----------

  datatype Pattern = Pattern(words: Phrase, name: string)

  ghost predicate TableMeans(entries: seq<Entry>, vocabulary: seq<Tag>) {
    && OneEntryEach(entries)
    && forall phrase, name | phrase != [] && name != "" ::
         Lookup(entries, phrase) == Some(Some(name)) <==> Means(vocabulary, phrase, name)
  }

  function Patterns(entries: seq<Entry>): seq<Pattern> {
    if entries == [] then []
    else
      var e := entries[0];
      (if e.name.Some? && e.name.value != "" && e.phrase != [] then [Pattern(e.phrase, e.name.value)] else [])
      + Patterns(entries[1..])
  }

  lemma {:induction false} PatternsAreEntries(entries: seq<Entry>, p: Pattern)
    ensures p in Patterns(entries) <==> p.words != [] && p.name != "" && Entry(p.words, Some(p.name)) in entries
  {
    if entries != [] {
      PatternsAreEntries(entries[1..], p);
      assert entries == [entries[0]] + entries[1..];
    }
  }

  function InsertByLength(patterns: seq<Pattern>, p: Pattern): seq<Pattern> {
    if patterns == [] || |p.words| >= |patterns[0].words| then [p] + patterns
    else [patterns[0]] + InsertByLength(patterns[1..], p)
  }

  /** Longest first; equally long patterns keep their order. */
  function SortByLength(patterns: seq<Pattern>): seq<Pattern> {
    if patterns == [] then [] else InsertByLength(SortByLength(patterns[1..]), patterns[0])
  }

  ghost predicate LongestFirst(patterns: seq<Pattern>) {
    forall i, j :: 0 <= i < j < |patterns| ==> |patterns[i].words| >= |patterns[j].words|
  }

  lemma {:induction false} InsertKeepsLongestFirst(patterns: seq<Pattern>, p: Pattern)
    requires LongestFirst(patterns)
    ensures LongestFirst(InsertByLength(patterns, p))
    ensures forall q :: q in InsertByLength(patterns, p) <==> q == p || q in patterns
  {
    if patterns != [] && |p.words| < |patterns[0].words| {
      var rest := patterns[1..];
      assert patterns == [patterns[0]] + rest;
      InsertKeepsLongestFirst(rest, p);
      forall q | q in InsertByLength(rest, p) ensures |patterns[0].words| >= |q.words| {
        if q in rest {
          var i :| 0 <= i < |rest| && rest[i] == q;
          assert patterns[i + 1] == q;
        }
      }
    }
  }

  lemma {:induction false} SortIsLongestFirst(patterns: seq<Pattern>)
    ensures LongestFirst(SortByLength(patterns))
    ensures forall q :: q in SortByLength(patterns) <==> q in patterns
  {
    if patterns != [] {
      SortIsLongestFirst(patterns[1..]);
      InsertKeepsLongestFirst(SortByLength(patterns[1..]), patterns[0]);
      assert patterns == [patterns[0]] + patterns[1..];
    }
  }

  ghost predicate PatternsMean(patterns: seq<Pattern>, vocabulary: seq<Tag>) {
    LongestFirst(patterns) && forall p :: p in patterns <==> Means(vocabulary, p.words, p.name)
  }

  lemma SortedPatternsMean(entries: seq<Entry>, vocabulary: seq<Tag>)
    requires TableMeans(entries, vocabulary)
    ensures PatternsMean(SortByLength(Patterns(entries)), vocabulary)
  {
    SortIsLongestFirst(Patterns(entries));
    forall p ensures p in Patterns(entries) <==> Means(vocabulary, p.words, p.name) {
      PatternsAreEntries(entries, p);
      LookupFinds(entries, Entry(p.words, Some(p.name)));
    }
  }

  /** Names replace whatever synonyms left under their words. */
  ghost predicate NamesPut(entries: seq<Entry>, synonyms: seq<Entry>, vocabulary: seq<Tag>) {
    && OneEntryEach(entries)
    && forall phrase :: Lookup(entries, phrase) ==
         var named := NamedTag(vocabulary, phrase); if named.Some? then Some(named) else Lookup(synonyms, phrase)
  }

  lemma NamePutKeeps(entries: seq<Entry>, synonyms: seq<Entry>, vocabulary: seq<Tag>, tag: Tag)
    requires NamesPut(entries, synonyms, vocabulary)
    ensures NamesPut(Put(entries, tag.words, Some(tag.name)), synonyms, vocabulary + [tag])
  {
    PutKeepsOneEach(entries, tag.words, Some(tag.name));
    assert (vocabulary + [tag])[..|vocabulary|] == vocabulary;
    forall phrase ensures Lookup(Put(entries, tag.words, Some(tag.name)), phrase) ==
                          var named := NamedTag(vocabulary + [tag], phrase);
                          if named.Some? then Some(named) else Lookup(synonyms, phrase)
    {
      LookupAfterPut(entries, tag.words, Some(tag.name), phrase);
    }
  }

  lemma NamesPutMeans(entries: seq<Entry>, synonyms: seq<Entry>, vocabulary: seq<Tag>)
    requires NamesPut(entries, synonyms, vocabulary)
    requires forall phrase :: phrase != [] ==> Agrees(Lookup(synonyms, phrase), Owners(vocabulary, phrase))
    ensures TableMeans(entries, vocabulary)
  {
    forall phrase, name | phrase != [] && name != ""
      ensures Lookup(entries, phrase) == Some(Some(name)) <==> Means(vocabulary, phrase, name)
    {
      assert Agrees(Lookup(synonyms, phrase), Owners(vocabulary, phrase));
      assert name in {name};
    }
  }

  /** The patterns are exactly the phrases the vocabulary gives a meaning, longest first. */
  method BuildPatterns(vocabulary: seq<Tag>) returns (patterns: seq<Pattern>)
    ensures PatternsMean(patterns, vocabulary)
  {
    var phrases: seq<Entry> := [];
    var i := 0;
    while i < |vocabulary|
      invariant 0 <= i <= |vocabulary|
      invariant OneEntryEach(phrases)
      invariant forall phrase :: phrase != [] ==> Agrees(Lookup(phrases, phrase), Owners(vocabulary[..i], phrase))
    {
      var tag := vocabulary[i];
      var j := 0;
      while j < |tag.synonyms|
        invariant 0 <= j <= |tag.synonyms|
        invariant TableAgrees(phrases, vocabulary[..i], tag, j)
      {
        var phrase := tag.synonyms[j];
        ClaimKeepsAgreement(phrases, vocabulary[..i], tag, j);
        j := j + 1;
        if phrase == [] { continue; }
        phrases := Put(phrases, phrase, ClaimedName(phrases, phrase, tag.name));
      }
      NextTagAgrees(phrases, vocabulary[..i], tag, Tag("", [], []));
      assert vocabulary[..i + 1] == vocabulary[..i] + [tag];
      forall phrase | phrase != [] ensures Agrees(Lookup(phrases, phrase), Owners(vocabulary[..i + 1], phrase)) {
        assert OwnersSoFar(vocabulary[..i + 1], Tag("", [], []), 0, phrase) == Owners(vocabulary[..i + 1], phrase);
      }
      i := i + 1;
    }
    assert vocabulary[..i] == vocabulary;
    ghost var synonyms := phrases;
    i := 0;
    while i < |vocabulary|
      invariant 0 <= i <= |vocabulary|
      invariant NamesPut(phrases, synonyms, vocabulary[..i])
    {
      NamePutKeeps(phrases, synonyms, vocabulary[..i], vocabulary[i]);
      assert vocabulary[..i + 1] == vocabulary[..i] + [vocabulary[i]];
      phrases := Put(phrases, vocabulary[i].words, Some(vocabulary[i].name));
      i := i + 1;
    }
    assert vocabulary[..i] == vocabulary;
    NamesPutMeans(phrases, synonyms, vocabulary);
    SortedPatternsMean(phrases, vocabulary);
    patterns := SortByLength(Patterns(phrases));
  }

  // ---------- The scan ----------

  predicate PatternAt(p: Pattern, tokens: seq<string>, at: nat) {
    at + |p.words| <= |tokens| && tokens[at..at + |p.words|] == p.words
  }

  /** The first pattern found at `at`. */
  function FindPattern(patterns: seq<Pattern>, tokens: seq<string>, at: nat): Option<Pattern> {
    if patterns == [] then None
    else if PatternAt(patterns[0], tokens, at) then Some(patterns[0])
    else FindPattern(patterns[1..], tokens, at)
  }

  lemma {:induction false} FindPatternIsFirst(patterns: seq<Pattern>, tokens: seq<string>, at: nat)
    requires LongestFirst(patterns)
    ensures var found := FindPattern(patterns, tokens, at);
            && (found.Some? ==> found.value in patterns && PatternAt(found.value, tokens, at))
            && (forall p :: p in patterns && PatternAt(p, tokens, at) ==>
                  found.Some? && |found.value.words| >= |p.words|)
  {
    if patterns != [] {
      var rest := patterns[1..];
      assert patterns == [patterns[0]] + rest;
      forall i, j | 0 <= i < j < |rest| ensures |rest[i].words| >= |rest[j].words| {
        assert rest[i] == patterns[i + 1] && rest[j] == patterns[j + 1];
      }
      FindPatternIsFirst(rest, tokens, at);
    }
  }

  /** The first pattern found is the longest known phrase there, whatever the order of equally long patterns. */
  lemma FindPatternIsLongest(patterns: seq<Pattern>, vocabulary: seq<Tag>, tokens: seq<string>, at: nat)
    requires PatternsMean(patterns, vocabulary) && at <= |tokens|
    ensures var found := FindPattern(patterns, tokens, at);
            var n := LongestAt(vocabulary, tokens, at);
            && (found.None? <==> n == 0)
            && (found.Some? ==> |found.value.words| == n <= |tokens| - at
                                && Means(vocabulary, tokens[at..at + n], found.value.name))
  {
    FindPatternIsFirst(patterns, tokens, at);
    LongestIsLongest(vocabulary, tokens, at, |tokens| - at);
    var found := FindPattern(patterns, tokens, at);
    var n := LongestAt(vocabulary, tokens, at);
    if n > 0 {
      var name :| Means(vocabulary, tokens[at..at + n], name);
      assert Pattern(tokens[at..at + n], name) in patterns;
      assert PatternAt(Pattern(tokens[at..at + n], name), tokens, at);
    }
    if found.Some? {
      assert Means(vocabulary, found.value.words, found.value.name);
      assert KnownAt(vocabulary, tokens, at, |found.value.words|);
    }
  }

  /** Whether a negation is in force after these parts. */
  ghost predicate StillNegated(tokens: seq<string>, cuts: seq<nat>)
    requires ValidCuts(tokens, cuts)
  {
    cuts != [] && Negated(tokens, cuts, |cuts| - 1)
  }

  lemma NegationAfterOneMore(tokens: seq<string>, cuts: seq<nat>, at: nat)
    requires ValidCuts(tokens, cuts) && at < |tokens|
    ensures ValidCuts(tokens, cuts + [at])
    ensures StillNegated(tokens, cuts + [at]) <==>
            !Resets(tokens[at]) && (Negates(tokens, at) || StillNegated(tokens, cuts))
  {
    var more := cuts + [at];
    var j := |cuts|;
    if Negates(tokens, at) { assert NegatesUntil(tokens, more, j, j); }
    if StillNegated(tokens, cuts) && !Resets(tokens[at]) {
      var a: nat :| a <= j - 1 && NegatesUntil(tokens, cuts, a, j - 1);
      assert NegatesUntil(tokens, more, a, j);
    }
    if Negated(tokens, more, j) {
      var a: nat :| a <= j && NegatesUntil(tokens, more, a, j);
      if a < j {
        assert !Resets(tokens[more[j]]);
        forall b | a < b <= j - 1 ensures !Resets(tokens[cuts[b]]) { assert more[b] == cuts[b]; }
        assert NegatesUntil(tokens, cuts, a, j - 1);
      }
    }
  }

  lemma ReportedInOneMore(vocabulary: seq<Tag>, tokens: seq<string>, cuts: seq<nat>, at: nat, name: string)
    requires ValidCuts(tokens, cuts) && ValidCuts(tokens, cuts + [at])
    ensures ReportedIn(vocabulary, tokens, cuts + [at], name) <==>
            ReportedIn(vocabulary, tokens, cuts, name) || ReportsAt(vocabulary, tokens, cuts + [at], |cuts|, name)
  {
    hide Means, LongestAt;
    var more := cuts + [at];
    forall j: nat | j < |cuts|
      ensures ReportsAt(vocabulary, tokens, more, j, name) <==> ReportsAt(vocabulary, tokens, cuts, j, name)
    {
      forall a: nat | a <= j ensures NegatesUntil(tokens, more, a, j) <==> NegatesUntil(tokens, cuts, a, j) {
        assert forall b :: a < b <= j ==> more[b] == cuts[b];
      }
      assert Negated(tokens, more, j) <==> Negated(tokens, cuts, j);
    }
  }

  /** What one turn of the scan adds: the part at `at` and the name it reports, if any. */
  lemma PartIsRead(patterns: seq<Pattern>, vocabulary: seq<Tag>, tokens: seq<string>, cuts: seq<nat>, at: nat)
    requires PatternsMean(patterns, vocabulary) && ValidCuts(tokens, cuts) && at < |tokens|
    ensures var pattern := FindPattern(patterns, tokens, at);
            var n := if pattern.Some? then |pattern.value.words| else 1;
            && 0 < n <= |tokens| - at
            && Cuts(vocabulary, tokens, at) == [at] + Cuts(vocabulary, tokens, at + n)
            && ValidCuts(tokens, cuts + [at])
            && (forall name :: ReportedIn(vocabulary, tokens, cuts + [at], name) <==>
                  ReportedIn(vocabulary, tokens, cuts, name)
                  || (pattern.Some? && !StillNegated(tokens, cuts + [at])
                      && TokenAt(tokens, at + n) != "free" && name == pattern.value.name))
  {
    hide Means, Negates, Negated, LongestAt, PatternsMean, ReportedIn, ReportsAt, FindPattern;
    FindPatternIsLongest(patterns, vocabulary, tokens, at);
    NegationAfterOneMore(tokens, cuts, at);
    var pattern := FindPattern(patterns, tokens, at);
    forall name
      ensures ReportedIn(vocabulary, tokens, cuts + [at], name) <==>
              ReportedIn(vocabulary, tokens, cuts, name)
              || (pattern.Some? && !StillNegated(tokens, cuts + [at])
                  && TokenAt(tokens, at + |pattern.value.words|) != "free" && name == pattern.value.name)
    {
      ReportedInOneMore(vocabulary, tokens, cuts, at, name);
      LastPartReports(patterns, vocabulary, tokens, cuts + [at], name);
    }
  }

  lemma LastPartReports(patterns: seq<Pattern>, vocabulary: seq<Tag>, tokens: seq<string>, cuts: seq<nat>, name: string)
    requires PatternsMean(patterns, vocabulary) && ValidCuts(tokens, cuts) && cuts != []
    ensures var at := cuts[|cuts| - 1];
            var pattern := FindPattern(patterns, tokens, at);
            ReportsAt(vocabulary, tokens, cuts, |cuts| - 1, name) <==>
              pattern.Some? && !StillNegated(tokens, cuts)
              && TokenAt(tokens, at + |pattern.value.words|) != "free" && name == pattern.value.name
  {
    hide Means, Negated, LongestAt, PatternsMean, FindPattern;
    var at := cuts[|cuts| - 1];
    FindPatternIsLongest(patterns, vocabulary, tokens, at);
    var pattern := FindPattern(patterns, tokens, at);
    if pattern.Some? {
      MeansOneName(vocabulary, tokens[at..at + |pattern.value.words|], pattern.value.name);
    }
  }

  /** The sorted names of the tags the text mentions: an un-negated phrase, not followed by "free",
      among the parts into which longest phrases cut the text. */
  method ExtractReviewTags(tokens: seq<string>, vocabulary: seq<Tag>) returns (names: seq<string>)
    ensures Ascending(names)
    ensures forall name :: name in names <==> Reported(vocabulary, tokens, name)
  {
    hide Means, Negates, Negated, ReportsAt, ReportedIn, PatternsMean, Cuts;
    var patterns := BuildPatterns(vocabulary);
    var found: seq<string> := [];
    var negated := false;
    ghost var done: seq<nat> := [];
    forall name { NothingReportedYet(vocabulary, tokens, name); }
    var index := 0;
    while index < |tokens|
      invariant 0 <= index <= |tokens|
      invariant done + Cuts(vocabulary, tokens, index) == Cuts(vocabulary, tokens, 0)
      invariant ValidCuts(tokens, done) && (negated <==> StillNegated(tokens, done))
      invariant Distinct(found) && forall name :: name in found <==> ReportedIn(vocabulary, tokens, done, name)
    {
      if Resets(tokens[index]) {
        negated := false;
      } else if Negates(tokens, index) {
        negated := true;
      }
      NegationAfterOneMore(tokens, done, index);
      PartIsRead(patterns, vocabulary, tokens, done, index);
      done := done + [index];
      var pattern := FindPattern(patterns, tokens, index);
      if pattern.None? { index := index + 1; continue; }
      index := index + |pattern.value.words|;
      if !negated && TokenAt(tokens, index) != "free" && pattern.value.name !in found {
        found := found + [pattern.value.name];
      }
    }
    assert done == Cuts(vocabulary, tokens, 0) by { NothingLeft(vocabulary, tokens); }
    CutsAreValid(vocabulary, tokens, 0);
    SortSorts(found);
    names := Sort(found);
  }

  lemma NothingLeft(vocabulary: seq<Tag>, tokens: seq<string>)
    ensures Cuts(vocabulary, tokens, |tokens|) == []
  {}

  lemma NothingReportedYet(vocabulary: seq<Tag>, tokens: seq<string>, name: string)
    ensures !ReportedIn(vocabulary, tokens, [], name)
  {}

  lemma MeansOneName(vocabulary: seq<Tag>, phrase: Phrase, name: string)
    requires Means(vocabulary, phrase, name)
    ensures forall other :: Means(vocabulary, phrase, other) ==> other == name
  {
    forall other | Means(vocabulary, phrase, other) ensures other == name {
      if NamedTag(vocabulary, phrase).None? { assert {name} == {other}; assert other in {other}; }
    }
  }

  // ---------- The order of the vocabulary ----------

  ghost predicate SameMeaning(vocabulary: seq<Tag>, other: seq<Tag>) {
    forall phrase, name :: Means(vocabulary, phrase, name) <==> Means(other, phrase, name)
  }

  /** Phrases have a meaning, perhaps not the same one, under both. */
  ghost predicate SameKnown(vocabulary: seq<Tag>, other: seq<Tag>) {
    forall phrase :: IsKnown(vocabulary, phrase) <==> IsKnown(other, phrase)
  }

  lemma {:induction false} SameLongest(vocabulary: seq<Tag>, other: seq<Tag>, tokens: seq<string>, at: nat, n: nat)
    requires SameKnown(vocabulary, other) && at + n <= |tokens|
    ensures LongestUpTo(vocabulary, tokens, at, n) == LongestUpTo(other, tokens, at, n)
  {
    if n > 0 { SameLongest(vocabulary, other, tokens, at, n - 1); }
  }

  lemma {:induction false} SameCuts(vocabulary: seq<Tag>, other: seq<Tag>, tokens: seq<string>, from: nat)
    requires SameKnown(vocabulary, other) && from <= |tokens|
    ensures Cuts(vocabulary, tokens, from) == Cuts(other, tokens, from)
    decreases |tokens| - from
  {
    if from < |tokens| {
      SameLongest(vocabulary, other, tokens, from, |tokens| - from);
      var next := PartEnd(vocabulary, tokens, from);
      NextCut(vocabulary, tokens, from);
      NextCut(other, tokens, from);
      SameCuts(vocabulary, other, tokens, next);
    }
  }

  /** Names with the same words are the same name. */
  ghost predicate NamesAreDistinct(vocabulary: seq<Tag>) {
    forall tag, other :: tag in vocabulary && other in vocabulary && tag.words == other.words && tag.words != [] ==>
      tag.name == other.name
  }

  lemma {:induction false} NamedTagIsLast(vocabulary: seq<Tag>, phrase: Phrase)
    ensures NamedTag(vocabulary, phrase).Some? ==>
              exists tag :: tag in vocabulary && tag.words == phrase && tag.name == NamedTag(vocabulary, phrase).value
    ensures NamedTag(vocabulary, phrase).None? ==> forall tag :: tag in vocabulary ==> tag.words != phrase
  {
    if vocabulary != [] {
      var front, last := vocabulary[..|vocabulary| - 1], vocabulary[|vocabulary| - 1];
      NamedTagIsLast(front, phrase);
      assert vocabulary == front + [last];
      if last.words == phrase { assert last in vocabulary; }
    }
  }

  lemma ReorderedMeansTheSame(vocabulary: seq<Tag>, other: seq<Tag>)
    requires NamesAreDistinct(vocabulary) && forall tag :: tag in vocabulary <==> tag in other
    ensures SameMeaning(vocabulary, other)
  {
    forall phrase | phrase != [] ensures NamedTag(vocabulary, phrase) == NamedTag(other, phrase) {
      NamedTagIsLast(vocabulary, phrase);
      NamedTagIsLast(other, phrase);
    }
    forall phrase ensures Owners(vocabulary, phrase) == Owners(other, phrase) {}
  }

  lemma SameReport(vocabulary: seq<Tag>, other: seq<Tag>, tokens: seq<string>, cuts: seq<nat>, j: nat, name: string)
    requires SameMeaning(vocabulary, other) && ValidCuts(tokens, cuts) && j < |cuts|
    requires LongestAt(vocabulary, tokens, cuts[j]) == LongestAt(other, tokens, cuts[j])
    ensures ReportsAt(vocabulary, tokens, cuts, j, name) <==> ReportsAt(other, tokens, cuts, j, name)
  {
    hide Means, Negated, LongestUpTo;
    var at, n := cuts[j], LongestAt(vocabulary, tokens, cuts[j]);
    LongestIsLongest(vocabulary, tokens, at, |tokens| - at);
    if n > 0 {
      assert Means(vocabulary, tokens[at..at + n], name) <==> Means(other, tokens[at..at + n], name);
    }
  }

  /** When names have distinct words, the order in which tags are listed changes nothing that is reported. */
  lemma VocabularyOrderDoesNotMatter(vocabulary: seq<Tag>, other: seq<Tag>, tokens: seq<string>, name: string)
    requires NamesAreDistinct(vocabulary) && forall tag :: tag in vocabulary <==> tag in other
    ensures Reported(vocabulary, tokens, name) <==> Reported(other, tokens, name)
  {
    hide Means;
    ReorderedMeansTheSame(vocabulary, other);
    assert SameKnown(vocabulary, other);
    SameCuts(vocabulary, other, tokens, 0);
    CutsAreValid(vocabulary, tokens, 0);
    var cuts := Cuts(vocabulary, tokens, 0);
    forall j: nat | j < |cuts|
      ensures ReportsAt(vocabulary, tokens, cuts, j, name) <==> ReportsAt(other, tokens, cuts, j, name)
    {
      SameLongest(vocabulary, other, tokens, cuts[j], |tokens| - cuts[j]);
      SameReport(vocabulary, other, tokens, cuts, j, name);
    }
  }

  /** The order never matters exactly when names have distinct words: the last listed name wins otherwise. */
  lemma OrderMattersExactly(vocabulary: seq<Tag>)
    ensures NamesAreDistinct(vocabulary) <==>
            forall other | multiset(other) == multiset(vocabulary) :: SameMeaning(vocabulary, other)
  {
    if NamesAreDistinct(vocabulary) {
      forall other | multiset(other) == multiset(vocabulary) ensures SameMeaning(vocabulary, other) {
        forall tag ensures tag in vocabulary <==> tag in other {
          assert tag in vocabulary <==> tag in multiset(vocabulary);
          assert tag in other <==> tag in multiset(other);
        }
        ReorderedMeansTheSame(vocabulary, other);
      }
    } else {
      var t, u :| t in vocabulary && u in vocabulary && t.words == u.words && t.words != [] && t.name != u.name;
      var first, second := MovedLast(vocabulary, t), MovedLast(vocabulary, u);
      MovedLastMeans(vocabulary, t);
      MovedLastMeans(vocabulary, u);
      var named := if t.name != "" then t.name else u.name;
      assert Means(first, t.words, named) != Means(second, t.words, named) by {
        assert NamedTag(first, t.words) == Some(t.name) && NamedTag(second, t.words) == Some(u.name);
      }
      assert Means(vocabulary, t.words, named) <==> Means(vocabulary, u.words, named);
      assert !SameMeaning(vocabulary, first) || !SameMeaning(vocabulary, second);
    }
  }

  function MovedLast(vocabulary: seq<Tag>, tag: Tag): seq<Tag>
    requires tag in vocabulary
  {
    if vocabulary[0] == tag then vocabulary[1..] + [tag] else [vocabulary[0]] + MovedLast(vocabulary[1..], tag)
  }

  lemma {:induction false} MovedLastMeans(vocabulary: seq<Tag>, tag: Tag)
    requires tag in vocabulary
    ensures multiset(MovedLast(vocabulary, tag)) == multiset(vocabulary)
    ensures |MovedLast(vocabulary, tag)| == |vocabulary| && MovedLast(vocabulary, tag)[|vocabulary| - 1] == tag
  {
    assert vocabulary == [vocabulary[0]] + vocabulary[1..];
    if vocabulary[0] != tag { MovedLastMeans(vocabulary[1..], tag); }
  }
}
