/** Comparing stated bottle facts with a Bottle's fields. Editions come as their words: lower-case letters,
    digits, and dots or slashes between digits. */
module FieldConflicts {
  import opened Wrappers
  import opened Decimals

  // ---------- Edition words ----------

  predicate HasDigit(word: string) {
    exists i :: 0 <= i < |word| && IsDigit(word[i])
  }

  predicate SomeHasDigit(words: seq<string>) {
    exists i :: 0 <= i < |words| && HasDigit(words[i])
  }

  /** Drops the zeros before a digit where a number starts. */
  function DropZeros(word: string, atStart: bool): string {
    if word == "" then ""
    else if atStart && word[0] == '0' && |word| > 1 && IsDigit(word[1]) then DropZeros(word[1..], true)
    else [word[0]] + DropZeros(word[1..], word[0] == '.' || word[0] == '/')
  }

  predicate IsLetter(c: char) {
    'a' <= c <= 'z'
  }

  function LetterCount(word: string): (n: nat)
    ensures n <= |word|
  {
    if word == "" || !IsLetter(word[0]) then 0 else 1 + LetterCount(word[1..])
  }

  /** Letters first, then a digit. */
  predicate StartsWithLetters(word: string) {
    var n := LetterCount(word);
    0 < n < |word| && IsDigit(word[n])
  }

  datatype Marker = Marker(printed: string, spaced: string)

  function MarkerOf(word: string, otherWords: seq<string>): Marker {
    var n := LetterCount(word);
    Marker(
      DropZeros(word, true),
      DropZeros(if StartsWithLetters(word) && word[..n] in otherWords then word[n..] else word, true))
  }

  function EditionMarkers(words: seq<string>, otherWords: seq<string>): seq<Marker> {
    if words == [] then []
    else (if HasDigit(words[0]) then [MarkerOf(words[0], otherWords)] else []) + EditionMarkers(words[1..], otherWords)
  }

  predicate Matches(other: Marker, marker: Marker) {
    other.printed == marker.printed
    || (other.spaced == marker.spaced && (other.spaced == other.printed || marker.spaced == marker.printed))
  }

  predicate HasMarker(markers: seq<Marker>, marker: Marker) {
    exists i :: 0 <= i < |markers| && Matches(markers[i], marker)
  }

  predicate LacksSome(markers: seq<Marker>, others: seq<Marker>) {
    exists i :: 0 <= i < |markers| && !HasMarker(others, markers[i])
  }

  predicate EndsWithDigit(text: string) {
    text != "" && IsDigit(text[|text| - 1])
  }

  function JoinWord(text: string, word: string): string {
    if EndsWithDigit(text) && word != "" && IsDigit(word[0]) then text + " " + word else text + word
  }

  function JoinEditionWords(words: seq<string>): string {
    if words == [] then "" else JoinWord(JoinEditionWords(words[..|words| - 1]), words[|words| - 1])
  }

  datatype Outcome = Neither | Agreement | Conflict

  function CompareMarkers(left: seq<string>, right: seq<string>): Outcome {
    var leftMarkers, rightMarkers := EditionMarkers(left, right), EditionMarkers(right, left);
    var leftOnly, rightOnly := LacksSome(leftMarkers, rightMarkers), LacksSome(rightMarkers, leftMarkers);
    if leftOnly && rightOnly then Conflict
    else if !leftOnly && !rightOnly && |leftMarkers| > 0 then Agreement
    else Neither
  }

  function CompareEditions(left: seq<string>, right: seq<string>): Outcome {
    if SomeHasDigit(left) && JoinEditionWords(left) == JoinEditionWords(right) then Agreement
    else CompareMarkers(left, right)
  }

  // ---------- Markers ----------

  lemma {:induction false} MarkersAreOfWords(words: seq<string>, otherWords: seq<string>)
    ensures forall i :: 0 <= i < |words| && HasDigit(words[i]) ==>
              MarkerOf(words[i], otherWords) in EditionMarkers(words, otherWords)
    ensures forall m :: m in EditionMarkers(words, otherWords) ==>
              exists i :: 0 <= i < |words| && HasDigit(words[i]) && MarkerOf(words[i], otherWords) == m
  {
    hide MarkerOf, HasDigit;
    if words != [] {
      MarkersAreOfWords(words[1..], otherWords);
      forall i | 0 <= i < |words| && HasDigit(words[i])
        ensures MarkerOf(words[i], otherWords) in EditionMarkers(words, otherWords)
      {
        if i > 0 { assert words[i] == words[1..][i - 1]; }
      }
      forall m | m in EditionMarkers(words, otherWords)
        ensures exists i :: 0 <= i < |words| && HasDigit(words[i]) && MarkerOf(words[i], otherWords) == m
      {
        if m in EditionMarkers(words[1..], otherWords) {
          var i :| 0 <= i < |words[1..]| && HasDigit(words[1..][i]) && MarkerOf(words[1..][i], otherWords) == m;
          assert words[i + 1] == words[1..][i];
        }
      }
    }
  }

  /** A digit-bearing word of `words` matches no digit-bearing word of `others`. */
  ghost predicate Unmatched(words: seq<string>, others: seq<string>, i: int) {
    && 0 <= i < |words| && HasDigit(words[i])
    && forall k | 0 <= k < |others| && HasDigit(others[k]) ::
         !Matches(MarkerOf(others[k], words), MarkerOf(words[i], others))
  }

  lemma LacksSomeExactly(words: seq<string>, others: seq<string>)
    ensures LacksSome(EditionMarkers(words, others), EditionMarkers(others, words)) <==>
            exists i :: Unmatched(words, others, i)
  {
    hide MarkerOf, HasDigit, EditionMarkers, Matches;
    var mine, theirs := EditionMarkers(words, others), EditionMarkers(others, words);
    MarkersAreOfWords(words, others);
    MarkersAreOfWords(others, words);
    if LacksSome(mine, theirs) {
      var m :| 0 <= m < |mine| && !HasMarker(theirs, mine[m]);
      assert mine[m] in mine;
      var i :| 0 <= i < |words| && HasDigit(words[i]) && MarkerOf(words[i], others) == mine[m];
      forall k | 0 <= k < |others| && HasDigit(others[k])
        ensures !Matches(MarkerOf(others[k], words), MarkerOf(words[i], others))
      {
        var n :| 0 <= n < |theirs| && theirs[n] == MarkerOf(others[k], words);
      }
      assert Unmatched(words, others, i);
    }
    if i :| Unmatched(words, others, i) {
      var m :| 0 <= m < |mine| && mine[m] == MarkerOf(words[i], others);
      forall n | 0 <= n < |theirs| ensures !Matches(theirs[n], mine[m]) {
        assert theirs[n] in theirs;
        var k :| 0 <= k < |others| && HasDigit(others[k]) && MarkerOf(others[k], words) == theirs[n];
      }
    }
  }

  lemma SomeMarkerExactly(words: seq<string>, others: seq<string>)
    ensures |EditionMarkers(words, others)| > 0 <==> SomeHasDigit(words)
  {
    hide MarkerOf, HasDigit;
    MarkersAreOfWords(words, others);
    if |EditionMarkers(words, others)| > 0 { assert EditionMarkers(words, others)[0] in EditionMarkers(words, others); }
  }

  // ---------- Both sides count alike ----------

  lemma {:induction false} JoinKeepsDigits(words: seq<string>)
    ensures HasDigit(JoinEditionWords(words)) <==> SomeHasDigit(words)
  {
    if words != [] {
      var front, word := words[..|words| - 1], words[|words| - 1];
      JoinKeepsDigits(front);
      assert words == front + [word];
      var text, joined := JoinEditionWords(front), JoinEditionWords(words);
      assert joined == text + word || joined == text + " " + word;
      JoinedHasDigit(text, word);
      JoinedHasDigit(text + " ", word);
      JoinedHasDigit(text, " ");
      SomeOneMore(front, word);
    }
  }

  lemma JoinedHasDigit(a: string, b: string)
    ensures HasDigit(a + b) <==> HasDigit(a) || HasDigit(b)
  {
    if i :| 0 <= i < |a| && IsDigit(a[i]) { assert (a + b)[i] == a[i]; }
    if i :| 0 <= i < |b| && IsDigit(b[i]) { assert (a + b)[|a| + i] == b[i]; }
  }

  lemma SomeOneMore(words: seq<string>, word: string)
    ensures SomeHasDigit(words + [word]) <==> SomeHasDigit(words) || HasDigit(word)
  {
    hide HasDigit;
    if i :| 0 <= i < |words| && HasDigit(words[i]) { assert (words + [word])[i] == words[i]; }
    if HasDigit(word) { assert (words + [word])[|words|] == word; }
  }

  /** Comparing two editions gives the same outcome with the sides swapped. */
  lemma EditionsAreSymmetric(left: seq<string>, right: seq<string>)
    ensures CompareEditions(left, right) == CompareEditions(right, left)
  {
    hide EditionMarkers, JoinEditionWords, SomeHasDigit, LacksSome;
    JoinKeepsDigits(left);
    JoinKeepsDigits(right);
    SomeMarkerExactly(left, right);
    SomeMarkerExactly(right, left);
    LacksSomeExactly(left, right);
    LacksSomeExactly(right, left);
    MarkersOnOneSide(left, right);
    MarkersOnOneSide(right, left);
  }

  /** A side with markers lacks some when the other has none. */
  lemma MarkersOnOneSide(left: seq<string>, right: seq<string>)
    ensures SomeHasDigit(left) && !SomeHasDigit(right) ==> exists i :: Unmatched(left, right, i)
  {
    if SomeHasDigit(left) && !SomeHasDigit(right) {
      var i :| 0 <= i < |left| && HasDigit(left[i]);
      assert Unmatched(left, right, i);
    }
  }

  /** A marker that only one side records is no conflict: neither is any extra wording around shared words. */
  lemma SharedWordsNeverConflict(left: seq<string>, right: seq<string>)
    requires forall i :: 0 <= i < |right| && HasDigit(right[i]) ==> right[i] in left
    ensures CompareEditions(left, right) != Conflict
  {
    hide EditionMarkers, JoinEditionWords, SomeHasDigit, LacksSome, HasDigit;
    LacksSomeExactly(right, left);
    forall i | 0 <= i < |right| && HasDigit(right[i]) ensures !Unmatched(right, left, i) {
      var k :| 0 <= k < |left| && left[k] == right[i];
    }
  }

  // ---------- Plain numerals ----------

  predicate AllLetters(word: string) {
    word != "" && forall i :: 0 <= i < |word| ==> IsLetter(word[i])
  }

  /** Every word is a numeral or letters only. */
  ghost predicate Plain(words: seq<string>) {
    forall i :: 0 <= i < |words| ==> AllDigits(words[i]) || AllLetters(words[i])
  }

  /** The numbers an edition names. */
  ghost function Values(words: seq<string>): set<nat> {
    set word | word in words && AllDigits(word) :: Number(word)
  }

  lemma {:induction false} NumeralZeros(word: string)
    requires AllDigits(word)
    ensures DropZeros(word, true) == DropLeadingZeros(word)
  {
    if |word| > 1 && word[0] == '0' {
      NumeralZeros(word[1..]);
    } else {
      NoZerosInside(word[1..]);
    }
  }

  lemma {:induction false} NoZerosInside(word: string)
    requires forall i :: 0 <= i < |word| ==> IsDigit(word[i])
    ensures DropZeros(word, false) == word
  {
    if word != "" { NoZerosInside(word[1..]); }
  }

  /** Two numerals leave the same marker exactly when they name the same number. */
  lemma NumeralMarkers(word: string, others: seq<string>, other: string, words: seq<string>)
    requires AllDigits(word) && AllDigits(other)
    ensures Matches(MarkerOf(other, words), MarkerOf(word, others)) <==> Number(word) == Number(other)
  {
    NumeralZeros(word);
    NumeralZeros(other);
    DropLeadingZerosKeepsNumber(word);
    DropLeadingZerosKeepsNumber(other);
    DecimalOfNumber(DropLeadingZeros(word));
    DecimalOfNumber(DropLeadingZeros(other));
  }

  lemma PlainDigits(words: seq<string>, i: int)
    requires Plain(words) && 0 <= i < |words|
    ensures HasDigit(words[i]) <==> AllDigits(words[i])
  {
    if AllDigits(words[i]) { assert IsDigit(words[i][0]); }
  }

  lemma UnmatchedNumerals(words: seq<string>, others: seq<string>)
    requires Plain(words) && Plain(others)
    ensures (exists i :: Unmatched(words, others, i)) <==> exists v :: v in Values(words) && v !in Values(others)
  {
    hide MarkerOf, Matches, HasDigit, AllDigits;
    forall i | 0 <= i < |words| { PlainDigits(words, i); }
    forall k | 0 <= k < |others| { PlainDigits(others, k); }
    forall i, k | 0 <= i < |words| && 0 <= k < |others| && AllDigits(words[i]) && AllDigits(others[k])
      ensures Matches(MarkerOf(others[k], words), MarkerOf(words[i], others)) <==> Number(words[i]) == Number(others[k])
    {
      NumeralMarkers(words[i], others, others[k], words);
    }
    if i :| Unmatched(words, others, i) {
      assert words[i] in words && Number(words[i]) in Values(words);
    }
    if v :| v in Values(words) && v !in Values(others) {
      var i :| 0 <= i < |words| && AllDigits(words[i]) && Number(words[i]) == v;
      forall k | 0 <= k < |others| && HasDigit(others[k])
        ensures !Matches(MarkerOf(others[k], words), MarkerOf(words[i], others))
      {
        assert others[k] in others && Number(others[k]) in Values(others);
      }
      assert Unmatched(words, others, i);
    }
  }

  // ---------- The joined text of plain words ----------

  /** The maximal runs of digits in a text. */
  function DigitRuns(text: string): seq<string> {
    if text == "" then []
    else
      var front, last := text[..|text| - 1], text[|text| - 1];
      var runs := DigitRuns(front);
      if !IsDigit(last) then runs
      else if EndsWithDigit(front) && runs != [] then runs[..|runs| - 1] + [runs[|runs| - 1] + [last]]
      else runs + [[last]]
  }

  lemma {:induction false} RunsBeforeText(text: string, tail: string)
    requires forall i :: 0 <= i < |tail| ==> !IsDigit(tail[i])
    ensures DigitRuns(text + tail) == DigitRuns(text)
  {
    if tail != "" {
      var front := tail[..|tail| - 1];
      assert (text + tail)[..|text + tail| - 1] == text + front;
      RunsBeforeText(text, front);
    } else {
      assert text + tail == text;
    }
  }

  lemma {:induction false} RunsBeforeNumeral(text: string, numeral: string)
    requires AllDigits(numeral) && !EndsWithDigit(text)
    ensures DigitRuns(text + numeral) == DigitRuns(text) + [numeral]
  {
    var front := numeral[..|numeral| - 1];
    assert (text + numeral)[..|text + numeral| - 1] == text + front;
    if front != "" {
      RunsBeforeNumeral(text, front);
      assert numeral == front + [numeral[|numeral| - 1]];
    } else {
      assert text + front == text && numeral == [numeral[0]];
    }
  }

  function Numerals(words: seq<string>): seq<string> {
    if words == [] then []
    else
      var front, word := words[..|words| - 1], words[|words| - 1];
      if AllDigits(word) then Numerals(front) + [word] else Numerals(front)
  }

  lemma {:induction false} JoinKeepsNumerals(words: seq<string>)
    requires Plain(words)
    ensures DigitRuns(JoinEditionWords(words)) == Numerals(words)
  {
    if words != [] {
      var front, word := words[..|words| - 1], words[|words| - 1];
      JoinKeepsNumerals(front);
      var text := JoinEditionWords(front);
      if AllDigits(word) {
        if EndsWithDigit(text) {
          RunsBeforeText(text, " ");
          RunsBeforeNumeral(text + " ", word);
        } else {
          RunsBeforeNumeral(text, word);
        }
      } else {
        RunsBeforeText(text, word);
      }
    }
  }

  lemma {:induction false} NumeralsGiveValues(words: seq<string>)
    ensures forall word :: word in Numerals(words) <==> word in words && AllDigits(word)
  {
    if words != [] {
      NumeralsGiveValues(words[..|words| - 1]);
      assert words == words[..|words| - 1] + [words[|words| - 1]];
    }
  }

  lemma SameJoinSameValues(left: seq<string>, right: seq<string>)
    requires Plain(left) && Plain(right) && JoinEditionWords(left) == JoinEditionWords(right)
    ensures Values(left) == Values(right)
  {
    JoinKeepsNumerals(left);
    JoinKeepsNumerals(right);
    NumeralsGiveValues(left);
    NumeralsGiveValues(right);
  }

  /** Editions of plain numerals and wording: they agree exactly when they name the same numbers, and conflict
      exactly when each names one the other does not, whatever the wording, order and leading zeros. */
  lemma NumeralEditions(left: seq<string>, right: seq<string>)
    requires Plain(left) && Plain(right) && (SomeHasDigit(left) || SomeHasDigit(right))
    ensures CompareEditions(left, right) == Agreement <==> Values(left) == Values(right)
    ensures CompareEditions(left, right) == Conflict <==>
            (exists v :: v in Values(left) && v !in Values(right))
            && (exists v :: v in Values(right) && v !in Values(left))
  {
    hide EditionMarkers, JoinEditionWords, SomeHasDigit, LacksSome, Values, Plain, Unmatched;
    if JoinEditionWords(left) == JoinEditionWords(right) {
      SameJoinSameValues(left, right);
      JoinKeepsDigits(left);
      JoinKeepsDigits(right);
    } else {
      LacksSomeExactly(left, right);
      LacksSomeExactly(right, left);
      UnmatchedNumerals(left, right);
      UnmatchedNumerals(right, left);
      SomeMarkerExactly(left, right);
      MarkersOnOneSide(right, left);
    }
  }

  // ---------- Letters and a number, glued or apart ----------

  lemma {:induction false} CountLetters(letters: string, number: string)
    requires AllLetters(letters) && AllDigits(number)
    ensures LetterCount(letters + number) == |letters|
  {
    assert (letters + number)[1..] == letters[1..] + number;
    if |letters| > 1 {
      CountLetters(letters[1..], number);
    } else {
      assert letters[1..] + number == number;
    }
  }

  lemma {:induction false} LettersAreKept(letters: string, number: string, atStart: bool)
    requires AllLetters(letters)
    ensures DropZeros(letters + number, atStart) == letters + DropZeros(number, false)
  {
    assert (letters + number)[1..] == letters[1..] + number;
    if |letters| > 1 {
      LettersAreKept(letters[1..], number, false);
    } else {
      assert letters[1..] + number == number;
    }
  }

  /** A glued number under the other side's own letters: only the printed form keeps the letters. */
  lemma GluedMarker(letters: string, number: string, others: seq<string>)
    requires AllLetters(letters) && AllDigits(number) && letters in others
    ensures HasDigit(letters + number)
    ensures MarkerOf(letters + number, others) == Marker(letters + number, DropLeadingZeros(number))
  {
    var word := letters + number;
    CountLetters(letters, number);
    LettersAreKept(letters, number, true);
    NoZerosInside(number);
    NumeralZeros(number);
    assert word[..|letters|] == letters && word[|letters|..] == number;
    assert IsDigit(word[|letters|]);
  }

  lemma NumeralMarker(number: string, others: seq<string>)
    requires AllDigits(number)
    ensures HasDigit(number) && MarkerOf(number, others) == Marker(DropLeadingZeros(number), DropLeadingZeros(number))
  {
    NumeralZeros(number);
    assert IsDigit(number[0]);
  }

  lemma GluedMatch(letters: string, glued: string, apart: string)
    requires AllLetters(letters) && AllDigits(glued) && AllDigits(apart)
    ensures var left, right := Marker(letters + glued, DropLeadingZeros(glued)),
                               Marker(DropLeadingZeros(apart), DropLeadingZeros(apart));
            (Matches(left, right) <==> Number(glued) == Number(apart))
            && (Matches(right, left) <==> Number(glued) == Number(apart))
  {
    DropLeadingZerosKeepsNumber(glued);
    DropLeadingZerosKeepsNumber(apart);
    DecimalOfNumber(DropLeadingZeros(glued));
    DecimalOfNumber(DropLeadingZeros(apart));
    assert (letters + glued)[0] != DropLeadingZeros(apart)[0];
  }

  /** `Batch3` against `Batch 03`: the space and the zeros do not matter, and the glued letters hide no other number. */
  lemma GluedNumbersAreCompared(letters: string, glued: string, apart: string)
    requires AllLetters(letters) && AllDigits(glued) && AllDigits(apart)
    ensures CompareEditions([letters + glued], [letters, apart]) ==
            if Number(glued) == Number(apart) then Agreement else Conflict
  {
    hide MarkerOf, HasDigit, Matches, DropLeadingZeros, Number;
    var left, right := [letters + glued], [letters, apart];
    GluedMarker(letters, glued, right);
    NumeralMarker(apart, left);
    GluedMatch(letters, glued, apart);
    LettersHaveNoDigit(letters);
    var mine, theirs :=
      Marker(letters + glued, DropLeadingZeros(glued)),
      Marker(DropLeadingZeros(apart), DropLeadingZeros(apart));
    assert left[1..] == [] && right[1..] == [apart] && [apart][1..] == [];
    assert EditionMarkers(left[1..], right) == [] && EditionMarkers([apart][1..], left) == [];
    assert EditionMarkers([apart], left) == [theirs];
    assert EditionMarkers(left, right) == [mine] && EditionMarkers(right, left) == [theirs];
    assert HasMarker([theirs], mine) <==> Matches([theirs][0], mine);
    assert HasMarker([mine], theirs) <==> Matches([mine][0], theirs);
    assert LacksSome([mine], [theirs]) <==> !HasMarker([theirs], [mine][0]);
    assert LacksSome([theirs], [mine]) <==> !HasMarker([mine], [theirs][0]);
    JoinApart(letters, apart);
    JoinOne(letters + glued);
    if letters + glued == letters + apart { assert (letters + glued)[|letters|..] == (letters + apart)[|letters|..]; }
  }

  lemma LettersHaveNoDigit(letters: string)
    requires AllLetters(letters)
    ensures !HasDigit(letters)
  {}

  lemma JoinOne(word: string)
    ensures JoinEditionWords([word]) == word
  {
    assert [word][..0] == [] && "" + word == word;
  }

  lemma JoinApart(letters: string, number: string)
    requires AllLetters(letters)
    ensures JoinEditionWords([letters, number]) == letters + number
  {
    assert [letters, number][..1] == [letters];
    JoinOne(letters);
  }

  // ---------- Wording ----------

  /** Wording can matter: one more word parts a spaced code from its glued form. */
  lemma WordingCanMatter()
    ensures CompareEditions(["s2", "b13"], ["s2b13"]) == Agreement
    ensures CompareEditions(["batch", "s2", "b13"], ["s2b13"]) == Conflict
  {
    hide CompareMarkers, JoinEditionWords, HasDigit;
    JoinedCodes();
    WithWordingConflicts();
  }

  lemma JoinedCodes()
    ensures SomeHasDigit(["s2", "b13"])
    ensures JoinEditionWords(["s2", "b13"]) == JoinEditionWords(["s2b13"])
    ensures JoinEditionWords(["batch", "s2", "b13"]) != JoinEditionWords(["s2b13"])
  {
    JoinOne("s2");
    JoinOne("batch");
    JoinOne("s2b13");
    JoinLast(["s2"], "b13");
    JoinLast(["batch"], "s2");
    JoinLast(["batch", "s2"], "b13");
    assert ["s2"] + ["b13"] == ["s2", "b13"] && ["batch", "s2"] + ["b13"] == ["batch", "s2", "b13"];
    assert ["batch"] + ["s2"] == ["batch", "s2"];
    var words := ["s2", "b13"];
    assert HasDigit(words[0]) by { assert IsDigit("s2"[1]); }
  }

  lemma WithWordingConflicts()
    ensures CompareMarkers(["batch", "s2", "b13"], ["s2b13"]) == Conflict
  {
    hide MarkerOf, HasDigit, CompareMarkers, AllLetters;
    var longer, glued := ["batch", "s2", "b13"], ["s2b13"];
    LetterWords();
    CodeMarker("s2b13", "s", longer);
    CodeMarker("s2", "s", glued);
    CodeMarker("b13", "b", glued);
    LettersHaveNoDigit("batch");
    CodesDiffer(longer, glued);
  }

  lemma LetterWords()
    ensures AllLetters("s") && AllLetters("b") && AllLetters("batch")
  {}

  lemma CodesDiffer(longer: seq<string>, glued: seq<string>)
    requires longer == ["batch", "s2", "b13"] && glued == ["s2b13"]
    requires MarkerOf("s2b13", longer) == Marker("s2b13", "s2b13") && MarkerOf("s2", glued) == Marker("s2", "s2")
    requires MarkerOf("b13", glued) == Marker("b13", "b13") && !HasDigit("batch")
    requires HasDigit("s2b13") && HasDigit("b13")
    ensures CompareMarkers(longer, glued) == Conflict
  {
    hide MarkerOf, HasDigit, LacksSome, EditionMarkers;
    assert Unmatched(longer, glued, 2);
    assert Unmatched(glued, longer, 0);
    LacksSomeExactly(longer, glued);
    LacksSomeExactly(glued, longer);
  }

  lemma JoinLast(words: seq<string>, word: string)
    requires word != "" && !IsDigit(word[0])
    ensures JoinEditionWords(words + [word]) == JoinEditionWords(words) + word
  {
    assert (words + [word])[..|words|] == words;
  }

  /** A code whose first letters the other edition does not print keeps its form. */
  lemma CodeMarker(word: string, letters: string, others: seq<string>)
    requires AllLetters(letters) && letters <= word && letters !in others
    requires |word| > |letters| && IsDigit(word[|letters|]) && '.' !in word && '/' !in word
    ensures HasDigit(word) && MarkerOf(word, others) == Marker(word, word)
  {
    NoZerosDropped(word, true);
    LettersFirst(word, letters);
    assert word[..|letters|] == letters;
  }

  lemma {:induction false} LettersFirst(word: string, letters: string)
    requires AllLetters(letters) && letters <= word && |word| > |letters| && IsDigit(word[|letters|])
    ensures LetterCount(word) == |letters|
  {
    if |letters| > 1 { LettersFirst(word[1..], letters[1..]); } else { assert LetterCount(word[1..]) == 0; }
  }

  lemma {:induction false} NoZerosDropped(word: string, atStart: bool)
    requires '.' !in word && '/' !in word && (word != "" && atStart ==> word[0] != '0')
    ensures DropZeros(word, atStart) == word
  {
    if word != "" { NoZerosDropped(word[1..], false); }
  }

  // ---------- One more word without digits ----------

  lemma JoinWordAfter(head: string, text: string, last: string)
    requires !EndsWithDigit(head)
    ensures JoinWord(head + text, last) == head + JoinWord(text, last)
  {
    assert text == "" ==> head + text == head;
    assert EndsWithDigit(head + text) <==> EndsWithDigit(text);
    assert head + text + last == head + (text + last);
    assert head + text + " " + last == head + (text + " " + last);
  }

  lemma {:induction false} JoinWithWord(before: seq<string>, word: string, after: seq<string>)
    requires AllLetters(word)
    ensures JoinEditionWords(before + [word] + after) ==
            JoinEditionWords(before) + word + JoinEditionWords(after)
  {
    hide JoinWord;
    var joined := JoinEditionWords(before) + word;
    if after == [] {
      JoinLast(before, word);
      assert before + [word] + after == before + [word];
      assert joined + JoinEditionWords(after) == joined;
    } else {
      var front, last := after[..|after| - 1], after[|after| - 1];
      JoinWithWord(before, word, front);
      var words := before + [word] + after;
      assert words[..|words| - 1] == before + [word] + front && words[|words| - 1] == last;
      JoinWordAfter(joined, JoinEditionWords(front), last);
    }
  }

  lemma {:induction false} JoinOfTwo(before: seq<string>, after: seq<string>)
    ensures var first, second := JoinEditionWords(before), JoinEditionWords(after);
            var joined := JoinEditionWords(before + after);
            joined == first + second || joined == first + " " + second
  {
    var first := JoinEditionWords(before);
    if after == [] {
      assert before + after == before && first + "" == first;
    } else {
      var front, last := after[..|after| - 1], after[|after| - 1];
      JoinOfTwo(before, front);
      assert (before + after)[..|before + after| - 1] == before + front;
      JoinGrows(first, JoinEditionWords(front), JoinEditionWords(before + front), last);
    }
  }

  lemma JoinGrows(first: string, second: string, joined: string, last: string)
    requires joined == first + second || joined == first + " " + second
    ensures JoinWord(joined, last) == first + JoinWord(second, last)
            || JoinWord(joined, last) == first + " " + JoinWord(second, last)
  {
    if second != "" {
      assert EndsWithDigit(joined) <==> EndsWithDigit(second);
      assert joined == first + second ==>
        joined + last == first + (second + last) && joined + " " + last == first + (second + " " + last);
      assert joined == first + " " + second ==>
        joined + last == first + " " + (second + last) && joined + " " + last == first + " " + (second + " " + last);
    } else {
      assert second + last == last && first + second == first && first + " " + second == first + " ";
    }
  }

  /** The added word always shows in the joined text. */
  lemma JoinShowsWord(before: seq<string>, word: string, after: seq<string>)
    requires AllLetters(word)
    ensures JoinEditionWords(before + [word] + after) != JoinEditionWords(before + after)
  {
    JoinWithWord(before, word, after);
    JoinOfTwo(before, after);
    var first, second := JoinEditionWords(before), JoinEditionWords(after);
    assert (first + word + second)[|first|] == word[0];
    assert (first + " " + second)[|first|] == ' ';
  }

  /** The added word takes the letters off a code of `right[k]`, which `left` did not spell apart, and the number left
      is one that `left[i]` prints without letters. */
  ghost predicate Unlocks(word: string, left: seq<string>, right: seq<string>, i: int, k: int) {
    && 0 <= i < |left| && 0 <= k < |right| && HasDigit(left[i])
    && word !in left && StartsWithLetters(right[k]) && right[k][..LetterCount(right[k])] == word
    && var number := DropZeros(right[k][LetterCount(right[k])..], true);
       MarkerOf(left[i], right) == Marker(number, number)
  }

  lemma {:induction false} DropZerosKeepsStart(word: string, atStart: bool)
    requires word != ""
    ensures DropZeros(word, atStart) != ""
    ensures IsDigit(word[0]) <==> IsDigit(DropZeros(word, atStart)[0])
  {
    if atStart && word[0] == '0' && |word| > 1 && IsDigit(word[1]) { DropZerosKeepsStart(word[1..], true); }
  }

  lemma {:induction false} LettersComeFirst(word: string)
    ensures forall i :: 0 <= i < LetterCount(word) ==> IsLetter(word[i])
  {
    if word != "" && IsLetter(word[0]) { LettersComeFirst(word[1..]); }
  }

  /** A marker is printed with its letters, or it is a number in both forms. */
  lemma SpacedIsPrintedOrNumber(word: string, others: seq<string>)
    requires HasDigit(word)
    ensures var m := MarkerOf(word, others);
            m.spaced != "" && m.printed != "" && (m.spaced == m.printed || IsDigit(m.spaced[0]))
            && (StartsWithLetters(word) ==> !IsDigit(m.printed[0]))
  {
    var n := LetterCount(word);
    LettersComeFirst(word);
    DropZerosKeepsStart(word, true);
    if StartsWithLetters(word) { DropZerosKeepsStart(word[n..], true); }
  }

  lemma MatchesWithWord(word: string, left: seq<string>, longer: seq<string>, right: seq<string>, i: int, k: int)
    requires forall w :: w in longer <==> w == word || w in left
    requires 0 <= i < |left| && HasDigit(left[i]) && 0 <= k < |right| && HasDigit(right[k])
    ensures var mine := MarkerOf(left[i], right);
            Matches(MarkerOf(right[k], longer), mine) <==>
              Matches(MarkerOf(right[k], left), mine) || Unlocks(word, left, right, i, k)
  {
    hide DropZeros, LetterCount, HasDigit;
    var mine, before, now := MarkerOf(left[i], right), MarkerOf(right[k], left), MarkerOf(right[k], longer);
    var n := LetterCount(right[k]);
    if StartsWithLetters(right[k]) && right[k][..n] == word && word !in left {
      SpacedIsPrintedOrNumber(left[i], right);
      SpacedIsPrintedOrNumber(right[k], longer);
      DropZerosKeepsStart(right[k][n..], true);
      assert now.spaced == DropZeros(right[k][n..], true) && now.printed == before.printed == before.spaced;
    } else {
      assert now == before;
    }
  }

  /** The place of a word of `before + after` once another word stands between them. */
  function Place(before: seq<string>, i: int): int {
    if i < |before| then i else i + 1
  }

  lemma PlacesAgree(before: seq<string>, word: string, after: seq<string>)
    ensures var left, longer := before + after, before + [word] + after;
            && |longer| == |left| + 1 && longer[|before|] == word
            && (forall i :: 0 <= i < |left| ==> longer[Place(before, i)] == left[i])
            && (forall j :: 0 <= j < |longer| && j != |before| ==> longer[j] == left[if j < |before| then j else j - 1])
            && (forall w :: w in longer <==> w == word || w in left)
  {}

  /** With the word, `left` misses a marker only if it did before and no code is unlocked for it. */
  lemma LeftUnmatchedWithWord(before: seq<string>, word: string, after: seq<string>, right: seq<string>, i: int)
    requires 0 <= i < |before + after|
    ensures Unmatched(before + [word] + after, right, Place(before, i)) <==>
            Unmatched(before + after, right, i) && forall k :: !Unlocks(word, before + after, right, i, k)
  {
    hide Matches, MarkerOf, HasDigit, Unlocks;
    var left, longer := before + after, before + [word] + after;
    PlacesAgree(before, word, after);
    if HasDigit(left[i]) {
      forall k | 0 <= k < |right| && HasDigit(right[k])
        ensures Matches(MarkerOf(right[k], longer), MarkerOf(left[i], right)) <==>
                  Matches(MarkerOf(right[k], left), MarkerOf(left[i], right)) || Unlocks(word, left, right, i, k)
      {
        MatchesWithWord(word, left, longer, right, i, k);
      }
      forall k | Unlocks(word, left, right, i, k) ensures 0 <= k < |right| && HasDigit(right[k]) {
        UnlocksCodes(word, left, right, i, k);
      }
    }
  }

  lemma UnlocksCodes(word: string, left: seq<string>, right: seq<string>, i: int, k: int)
    requires Unlocks(word, left, right, i, k)
    ensures 0 <= k < |right| && HasDigit(right[k]) && 0 <= i < |left| && HasDigit(left[i])
  {}

  lemma MatchesEitherWay(marker: Marker, other: Marker)
    ensures Matches(marker, other) <==> Matches(other, marker)
  {}

  lemma MatchesBackWithWord(word: string, left: seq<string>, longer: seq<string>, right: seq<string>, i: int, k: int)
    requires forall w :: w in longer <==> w == word || w in left
    requires 0 <= i < |left| && HasDigit(left[i]) && 0 <= k < |right| && HasDigit(right[k])
    ensures var mine := MarkerOf(left[i], right);
            Matches(mine, MarkerOf(right[k], longer)) <==>
              Matches(mine, MarkerOf(right[k], left)) || Unlocks(word, left, right, i, k)
  {
    hide Matches, MarkerOf, HasDigit, Unlocks;
    MatchesWithWord(word, left, longer, right, i, k);
    MatchesEitherWay(MarkerOf(left[i], right), MarkerOf(right[k], longer));
    MatchesEitherWay(MarkerOf(left[i], right), MarkerOf(right[k], left));
  }

  /** With the word, `right` misses a marker only if it did before and its code is not unlocked. */
  lemma RightUnmatchedWithWord(before: seq<string>, word: string, after: seq<string>, right: seq<string>, k: int)
    requires !HasDigit(word)
    ensures Unmatched(right, before + [word] + after, k) <==>
            Unmatched(right, before + after, k) && forall i :: !Unlocks(word, before + after, right, i, k)
  {
    hide Matches, MarkerOf, HasDigit, Unlocks;
    var left, longer := before + after, before + [word] + after;
    PlacesAgree(before, word, after);
    if 0 <= k < |right| && HasDigit(right[k]) {
      forall i | 0 <= i < |left| && HasDigit(left[i]) { MatchesBackWithWord(word, left, longer, right, i, k); }
      forall i | Unlocks(word, left, right, i, k) { UnlocksCodes(word, left, right, i, k); }
      if Unmatched(right, longer, k) {
        forall i | 0 <= i < |left| && HasDigit(left[i])
          ensures !Matches(MarkerOf(left[i], right), MarkerOf(right[k], left)) && !Unlocks(word, left, right, i, k)
        {
          assert longer[Place(before, i)] == left[i];
        }
      } else {
        var j :| 0 <= j < |longer| && HasDigit(longer[j])
                 && Matches(MarkerOf(longer[j], right), MarkerOf(right[k], longer));
        var i := if j < |before| then j else j - 1;
        assert longer[j] == left[i] && HasDigit(left[i]);
      }
    }
  }

  ghost predicate StillUnmatched(word: string, left: seq<string>, right: seq<string>, i: int) {
    Unmatched(left, right, i) && forall k :: !Unlocks(word, left, right, i, k)
  }

  ghost predicate StillUnmatchedBack(word: string, left: seq<string>, right: seq<string>, k: int) {
    Unmatched(right, left, k) && forall i :: !Unlocks(word, left, right, i, k)
  }

  /** What one more word does to the comparison of markers: each side lacks what it lacked, less what is unlocked. */
  lemma MarkersWithWord(before: seq<string>, word: string, after: seq<string>, right: seq<string>)
    requires AllLetters(word)
    ensures var left, longer := before + after, before + [word] + after;
            && (SomeHasDigit(longer) <==> SomeHasDigit(left))
            && (LacksSome(EditionMarkers(longer, right), EditionMarkers(right, longer)) <==>
                  exists i :: StillUnmatched(word, left, right, i))
            && (LacksSome(EditionMarkers(right, longer), EditionMarkers(longer, right)) <==>
                  exists k :: StillUnmatchedBack(word, left, right, k))
  {
    hide Unmatched, LacksSome, EditionMarkers, HasDigit, Unlocks;
    var left, longer := before + after, before + [word] + after;
    PlacesAgree(before, word, after);
    LettersHaveNoDigit(word);
    LacksSomeExactly(longer, right);
    LacksSomeExactly(right, longer);
    forall i | 0 <= i < |left| { LeftUnmatchedWithWord(before, word, after, right, i); }
    forall k { RightUnmatchedWithWord(before, word, after, right, k); }
    if j :| Unmatched(longer, right, j) {
      UnmatchedHasDigit(longer, right, j);
      var i := if j < |before| then j else j - 1;
      assert j == Place(before, i) && StillUnmatched(word, left, right, i);
    }
    if i :| StillUnmatched(word, left, right, i) {
      UnmatchedHasDigit(left, right, i);
      assert Unmatched(longer, right, Place(before, i));
    }
    if k :| Unmatched(right, longer, k) { assert StillUnmatchedBack(word, left, right, k); }
    if k :| StillUnmatchedBack(word, left, right, k) { assert Unmatched(right, longer, k); }
    if i :| 0 <= i < |longer| && HasDigit(longer[i]) { assert left[if i < |before| then i else i - 1] == longer[i]; }
    if i :| 0 <= i < |left| && HasDigit(left[i]) { assert longer[Place(before, i)] == left[i]; }
  }

  lemma UnmatchedHasDigit(words: seq<string>, others: seq<string>, i: int)
    requires Unmatched(words, others, i)
    ensures 0 <= i < |words| && HasDigit(words[i])
  {}

  /** A word that repeats a code's letters can only reconcile markers: never part them. */
  lemma WordsOnlyReconcileMarkers(before: seq<string>, word: string, after: seq<string>, right: seq<string>)
    requires AllLetters(word)
    ensures var left, longer := before + after, before + [word] + after;
            && (CompareMarkers(left, right) == Agreement ==> CompareMarkers(longer, right) == Agreement)
            && (CompareMarkers(longer, right) == Conflict ==> CompareMarkers(left, right) == Conflict)
            && ((forall i, k :: !Unlocks(word, left, right, i, k)) ==>
                CompareMarkers(longer, right) == CompareMarkers(left, right))
  {
    hide Unmatched, LacksSome, EditionMarkers, HasDigit, Unlocks, SomeHasDigit;
    var left, longer := before + after, before + [word] + after;
    MarkersWithWord(before, word, after, right);
    LacksSomeExactly(left, right);
    LacksSomeExactly(right, left);
    SomeMarkerExactly(left, right);
    SomeMarkerExactly(longer, right);
    if forall i, k :: !Unlocks(word, left, right, i, k) {
      forall i ensures StillUnmatched(word, left, right, i) <==> Unmatched(left, right, i) {}
      forall k ensures StillUnmatchedBack(word, left, right, k) <==> Unmatched(right, left, k) {}
    }
  }

  /** How the markers of `left` and `right` compare once `left` has one more word, told from the two editions as
      they are: each side lacks what it lacked, less the codes that the word unlocks. */
  ghost function MarkersOnceAdded(word: string, left: seq<string>, right: seq<string>): Outcome {
    var leftOnly := exists i :: StillUnmatched(word, left, right, i);
    var rightOnly := exists k :: StillUnmatchedBack(word, left, right, k);
    if leftOnly && rightOnly then Conflict
    else if !leftOnly && !rightOnly && SomeHasDigit(left) then Agreement
    else Neither
  }

  lemma MarkersOnceAddedExactly(before: seq<string>, word: string, after: seq<string>, right: seq<string>)
    requires AllLetters(word)
    ensures CompareMarkers(before + [word] + after, right) == MarkersOnceAdded(word, before + after, right)
  {
    hide Unmatched, LacksSome, EditionMarkers, HasDigit, Unlocks, SomeHasDigit, StillUnmatched, StillUnmatchedBack;
    MarkersWithWord(before, word, after, right);
    SomeMarkerExactly(before + [word] + after, right);
  }

  /** When one more word without digits leaves the outcome as it is, wherever it stands: a condition on the word and
      the two editions without it. */
  lemma WordingIsIgnoredExactly(before: seq<string>, word: string, after: seq<string>, right: seq<string>)
    requires AllLetters(word)
    ensures var left := before + after;
            var joined := JoinEditionWords(before) + word + JoinEditionWords(after);
            CompareEditions(before + [word] + after, right) == CompareEditions(left, right) <==>
              || !SomeHasDigit(left)
              || (if joined == JoinEditionWords(right) then CompareMarkers(left, right) == Agreement
                  else if JoinEditionWords(left) == JoinEditionWords(right) then
                    MarkersOnceAdded(word, left, right) == Agreement
                  else MarkersOnceAdded(word, left, right) == CompareMarkers(left, right))
  {
    hide CompareMarkers, JoinEditionWords, HasDigit, MarkersOnceAdded;
    MarkersWithWord(before, word, after, right);
    MarkersOnceAddedExactly(before, word, after, right);
    JoinWithWord(before, word, after);
    JoinShowsWord(before, word, after);
    if !SomeHasDigit(before + after) { NoDigitsNoMarkers(before, word, after, right); }
  }

  lemma NoDigitsNoMarkers(before: seq<string>, word: string, after: seq<string>, right: seq<string>)
    requires AllLetters(word) && !SomeHasDigit(before + after)
    ensures CompareMarkers(before + [word] + after, right) == CompareMarkers(before + after, right)
  {
    hide Unmatched, LacksSome, EditionMarkers, HasDigit;
    var left := before + after;
    forall i, k ensures !Unlocks(word, left, right, i, k) {}
    WordsOnlyReconcileMarkers(before, word, after, right);
  }

  /** A word that takes no code's letters off is ignored exactly when there are no digits beside it, the markers agree,
      or neither with it nor without it the joined texts are equal. */
  lemma OtherWordsAreIgnoredExactly(before: seq<string>, word: string, after: seq<string>, right: seq<string>)
    requires AllLetters(word) && forall i, k :: !Unlocks(word, before + after, right, i, k)
    ensures var left, longer := before + after, before + [word] + after;
            CompareEditions(longer, right) == CompareEditions(left, right) <==>
              || !SomeHasDigit(left) || CompareMarkers(left, right) == Agreement
              || (JoinEditionWords(longer) != JoinEditionWords(right)
                  && JoinEditionWords(left) != JoinEditionWords(right))
  {
    hide CompareMarkers, JoinEditionWords, HasDigit, Unlocks, MarkersOnceAdded;
    WordsOnlyReconcileMarkers(before, word, after, right);
    MarkersOnceAddedExactly(before, word, after, right);
    JoinWithWord(before, word, after);
    WordingIsIgnoredExactly(before, word, after, right);
  }

  // ---------- All fields ----------

  datatype Field =
    | Category | StatedAge | NoAgeStatement | Abv | VintageYear | ReleaseYear | CaskStrength | SingleCask
    | Edition | CaskNumber | BottlingYear | ReleaseMonth | ReleaseDay

  const COMPARABLE_BOTTLE_FIELDS: seq<Field> := [
    Category, StatedAge, NoAgeStatement, Abv, VintageYear, ReleaseYear, CaskStrength, SingleCask,
    Edition, CaskNumber, BottlingYear, ReleaseMonth, ReleaseDay]

  lemma EveryFieldIsComparable(field: Field)
    ensures field in COMPARABLE_BOTTLE_FIELDS
  {
    var fields := COMPARABLE_BOTTLE_FIELDS;
    assert fields[0] == Category && fields[1] == StatedAge && fields[2] == NoAgeStatement && fields[3] == Abv
           && fields[4] == VintageYear && fields[5] == ReleaseYear && fields[6] == CaskStrength;
    assert fields[7] == SingleCask && fields[8] == Edition && fields[9] == CaskNumber && fields[10] == BottlingYear
           && fields[11] == ReleaseMonth && fields[12] == ReleaseDay;
  }

  datatype Value = Empty | Text(string) | Quantity(real) | Flag(bool)

  type Fields = map<Field, Value>

  /** How a text becomes edition words and how a cask number is normalised. */
  datatype Rules = Rules(words: Value -> seq<string>, cask: Value -> string)

  function ValueOf(fields: Fields, field: Field): Value {
    if field in fields && fields[field] != Text("") then fields[field] else Empty
  }

  datatype FieldOutcome = Skipped | Missing | Agrees | Conflicts | Undecided

  function CompareField(rules: Rules, field: Field, source: Value, bottle: Value): FieldOutcome {
    if source.Empty? then Skipped
    else if bottle.Empty? then Missing
    else if field == Edition then
      (match CompareEditions(rules.words(source), rules.words(bottle))
       case Agreement => Agrees
       case Conflict => Conflicts
       case Neither => Undecided)
    else if field == CaskNumber then (if rules.cask(source) == rules.cask(bottle) then Agrees else Conflicts)
    else if source == bottle then Agrees
    else Conflicts
  }

  /** The fields of `fields` with this outcome, in their order. */
  function FieldsWith(rules: Rules, fields: seq<Field>, source: Fields, bottle: Fields,
      outcome: FieldOutcome): seq<Field>
  {
    if fields == [] then []
    else
      var front, field := fields[..|fields| - 1], fields[|fields| - 1];
      FieldsWith(rules, front, source, bottle, outcome)
      + (if CompareField(rules, field, ValueOf(source, field), ValueOf(bottle, field)) == outcome then [field] else [])
  }

  datatype Comparison = Comparison(agreements: seq<Field>, missing: seq<Field>, conflicts: seq<Field>)

  lemma FieldsWithOneMore(rules: Rules, fields: seq<Field>, i: nat, source: Fields, bottle: Fields,
      outcome: FieldOutcome)
    requires i < |fields|
    ensures FieldsWith(rules, fields[..i + 1], source, bottle, outcome) ==
            FieldsWith(rules, fields[..i], source, bottle, outcome)
            + if CompareField(rules, fields[i], ValueOf(source, fields[i]), ValueOf(bottle, fields[i])) == outcome
              then [fields[i]] else []
  {
    assert fields[..i + 1][..i] == fields[..i];
  }

  lemma {:induction false} FieldsWithExactly(rules: Rules, fields: seq<Field>, source: Fields, bottle: Fields,
      outcome: FieldOutcome, field: Field)
    ensures field in FieldsWith(rules, fields, source, bottle, outcome) <==>
            field in fields && CompareField(rules, field, ValueOf(source, field), ValueOf(bottle, field)) == outcome
  {
    hide CompareField, ValueOf;
    if fields != [] {
      FieldsWithExactly(rules, fields[..|fields| - 1], source, bottle, outcome, field);
      assert fields == fields[..|fields| - 1] + [fields[|fields| - 1]];
    }
  }

  /** The record states a value for the field: one that is there and not an empty text. */
  predicate States(fields: Fields, field: Field) {
    field in fields && fields[field] != Empty && fields[field] != Text("")
  }

  /** Whether two stated values of a field agree, and whether they conflict: an edition by its words, a cask number by
      its normalised text, and any other field by the value itself. */
  ghost predicate JudgedRightly(rules: Rules, source: Fields, bottle: Fields, result: Comparison, field: Field)
    requires States(source, field) && States(bottle, field)
  {
    var expected, actual := source[field], bottle[field];
    var agrees, conflicts := field in result.agreements, field in result.conflicts;
    match field
    case Edition =>
      && (agrees <==> CompareEditions(rules.words(expected), rules.words(actual)) == Agreement)
      && (conflicts <==> CompareEditions(rules.words(expected), rules.words(actual)) == Conflict)
    case CaskNumber =>
      && (agrees <==> rules.cask(expected) == rules.cask(actual))
      && (conflicts <==> rules.cask(expected) != rules.cask(actual))
    case _ => (agrees <==> expected == actual) && (conflicts <==> expected != actual)
  }

  /** A field only the source states is missing, one the source leaves out is in no list, and one both state is judged.
      No field is in two lists, and every field but the edition that the source states is in one. */
  ghost predicate ComparedRightly(rules: Rules, source: Fields, bottle: Fields, result: Comparison, field: Field) {
    var agrees, missing, conflicts :=
      field in result.agreements, field in result.missing, field in result.conflicts;
    && (missing <==> States(source, field) && !States(bottle, field))
    && (States(source, field) && States(bottle, field) ==> JudgedRightly(rules, source, bottle, result, field))
    && (agrees || conflicts ==> States(source, field) && States(bottle, field))
    && !(agrees && conflicts)
    && (field != Edition && States(source, field) ==> agrees || missing || conflicts)
  }

  lemma FieldIsComparedRightly(rules: Rules, fields: seq<Field>, source: Fields, bottle: Fields, result: Comparison,
      field: Field)
    requires field in fields
    requires result.agreements == FieldsWith(rules, fields, source, bottle, Agrees)
    requires result.missing == FieldsWith(rules, fields, source, bottle, Missing)
    requires result.conflicts == FieldsWith(rules, fields, source, bottle, Conflicts)
    ensures ComparedRightly(rules, source, bottle, result, field)
  {
    hide CompareEditions, FieldsWith;
    FieldsWithExactly(rules, fields, source, bottle, Agrees, field);
    FieldsWithExactly(rules, fields, source, bottle, Missing, field);
    FieldsWithExactly(rules, fields, source, bottle, Conflicts, field);
  }

  method CompareFields(rules: Rules, fields: seq<Field>, source: Fields, bottle: Fields) returns (result: Comparison)
    ensures result.agreements == FieldsWith(rules, fields, source, bottle, Agrees)
    ensures result.missing == FieldsWith(rules, fields, source, bottle, Missing)
    ensures result.conflicts == FieldsWith(rules, fields, source, bottle, Conflicts)
  {
    hide CompareEditions, ValueOf;
    result := Comparison([], [], []);
    for i := 0 to |fields|
      invariant result.agreements == FieldsWith(rules, fields[..i], source, bottle, Agrees)
      invariant result.missing == FieldsWith(rules, fields[..i], source, bottle, Missing)
      invariant result.conflicts == FieldsWith(rules, fields[..i], source, bottle, Conflicts)
    {
      hide FieldsWith;
      var field := fields[i];
      FieldsWithOneMore(rules, fields, i, source, bottle, Agrees);
      FieldsWithOneMore(rules, fields, i, source, bottle, Missing);
      FieldsWithOneMore(rules, fields, i, source, bottle, Conflicts);
      var expected, actual := ValueOf(source, field), ValueOf(bottle, field);
      if expected.Empty? { continue; }
      if actual.Empty? {
        result := result.(missing := result.missing + [field]);
        continue;
      }
      var outcome :=
        if field == Edition then CompareEditions(rules.words(expected), rules.words(actual))
        else if field == CaskNumber then (if rules.cask(expected) == rules.cask(actual) then Agreement else Conflict)
        else if expected == actual then Agreement
        else Conflict;
      if outcome == Agreement { result := result.(agreements := result.agreements + [field]); }
      if outcome == Conflict { result := result.(conflicts := result.conflicts + [field]); }
    }
    assert fields[..|fields|] == fields;
  }

  method CompareBottleFields(rules: Rules, source: Fields, bottle: Fields) returns (result: Comparison)
    ensures result.agreements == FieldsWith(rules, COMPARABLE_BOTTLE_FIELDS, source, bottle, Agrees)
    ensures result.missing == FieldsWith(rules, COMPARABLE_BOTTLE_FIELDS, source, bottle, Missing)
    ensures result.conflicts == FieldsWith(rules, COMPARABLE_BOTTLE_FIELDS, source, bottle, Conflicts)
    ensures forall field: Field :: ComparedRightly(rules, source, bottle, result, field)
  {
    hide FieldsWith, ComparedRightly;
    result := CompareFields(rules, COMPARABLE_BOTTLE_FIELDS, source, bottle);
    forall field: Field ensures ComparedRightly(rules, source, bottle, result, field) {
      EveryFieldIsComparable(field);
      FieldIsComparedRightly(rules, COMPARABLE_BOTTLE_FIELDS, source, bottle, result, field);
    }
  }

  /** A field is missing exactly when only the source states it, and conflicts or agrees only when both do. */
  lemma EmptyFieldsNeverConflict(rules: Rules, fields: seq<Field>, source: Fields, bottle: Fields, field: Field)
    requires field in fields
    ensures var stated, known := !ValueOf(source, field).Empty?, !ValueOf(bottle, field).Empty?;
            && (field in FieldsWith(rules, fields, source, bottle, Missing) <==> stated && !known)
            && (field in FieldsWith(rules, fields, source, bottle, Conflicts) ==> stated && known)
            && (field in FieldsWith(rules, fields, source, bottle, Agrees) ==> stated && known)
  {
    hide CompareEditions, ValueOf;
    FieldsWithExactly(rules, fields, source, bottle, Missing, field);
    FieldsWithExactly(rules, fields, source, bottle, Conflicts, field);
    FieldsWithExactly(rules, fields, source, bottle, Agrees, field);
  }

  lemma FieldOutcomesAreSymmetric(rules: Rules, field: Field, source: Value, bottle: Value)
    ensures CompareField(rules, field, source, bottle) == Agrees <==>
            CompareField(rules, field, bottle, source) == Agrees
    ensures CompareField(rules, field, source, bottle) == Conflicts <==>
            CompareField(rules, field, bottle, source) == Conflicts
  {
    hide CompareEditions;
    EditionsAreSymmetric(rules.words(source), rules.words(bottle));
  }

  /** Agreements and conflicts are the same with the sides swapped. */
  lemma {:induction false} ComparisonIsSymmetric(rules: Rules, fields: seq<Field>, source: Fields, bottle: Fields)
    ensures FieldsWith(rules, fields, source, bottle, Agrees) == FieldsWith(rules, fields, bottle, source, Agrees)
    ensures FieldsWith(rules, fields, source, bottle, Conflicts) == FieldsWith(rules, fields, bottle, source, Conflicts)
  {
    hide CompareField;
    if fields != [] {
      var field := fields[|fields| - 1];
      ComparisonIsSymmetric(rules, fields[..|fields| - 1], source, bottle);
      FieldOutcomesAreSymmetric(rules, field, ValueOf(source, field), ValueOf(bottle, field));
    }
  }

  /** A record never conflicts with itself, whatever the field. */
  lemma {:induction false} NoConflictWithItself(rules: Rules, fields: seq<Field>, record: Fields)
    ensures FieldsWith(rules, fields, record, record, Conflicts) == []
  {
    hide CompareMarkers;
    if fields != [] {
      var field := fields[|fields| - 1];
      NoConflictWithItself(rules, fields[..|fields| - 1], record);
      var words := rules.words(ValueOf(record, field));
      SharedWordsNeverConflict(words, words);
    }
  }
}
