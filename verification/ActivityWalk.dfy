/** Composing one page from its two windows, and walking the pages of a feed. */
module ActivityWalk {
  import opened ActivityPaging

  // ---------- One page ----------

  function Take<T>(s: seq<T>, n: int): seq<T>
    requires n >= 0
  {
    if n < |s| then s[..n] else s
  }

  /** A primary entry, then a secondary entry, and so on; then what is left of either. */
  function Alternate<T>(primary: seq<T>, secondary: seq<T>): seq<T> {
    if primary == [] then secondary
    else if secondary == [] then primary
    else [primary[0], secondary[0]] + Alternate(primary[1..], secondary[1..])
  }

  /** `merged` is an order-preserving interleaving of exactly the entries of `left` and `right`. */
  ghost predicate Interleaves<T>(merged: seq<T>, left: seq<T>, right: seq<T>) {
    if merged == [] then left == [] && right == []
    else
      || (left != [] && merged[0] == left[0] && Interleaves(merged[1..], left[1..], right))
      || (right != [] && merged[0] == right[0] && Interleaves(merged[1..], left, right[1..]))
  }

  lemma {:induction false} OneSided<T>(s: seq<T>)
    ensures Interleaves(s, s, []) && Interleaves(s, [], s)
  {
    if s != [] { OneSided(s[1..]); }
  }

  lemma {:induction false} AlternateInterleaves<T>(primary: seq<T>, secondary: seq<T>)
    ensures Interleaves(Alternate(primary, secondary), primary, secondary)
  {
    if primary == [] || secondary == [] {
      OneSided(primary);
      OneSided(secondary);
    } else {
      AlternateInterleaves(primary[1..], secondary[1..]);
      var merged := Alternate(primary, secondary);
      assert merged[1..][1..] == Alternate(primary[1..], secondary[1..]);
      assert merged[1..][0] == secondary[0];
    }
  }

  lemma {:induction false} AlternateLength<T>(primary: seq<T>, secondary: seq<T>)
    ensures |Alternate(primary, secondary)| == |primary| + |secondary|
  {
    if primary != [] && secondary != [] { AlternateLength(primary[1..], secondary[1..]); }
  }

  /** The k-th secondary entry follows k + 1 primary entries, or all of them when there are fewer. */
  lemma {:induction false} SecondaryAt<T>(primary: seq<T>, secondary: seq<T>, k: nat)
    requires k < |secondary|
    ensures |Alternate(primary, secondary)| == |primary| + |secondary|
    ensures Alternate(primary, secondary)[k + Min(k + 1, |primary|)] == secondary[k]
  {
    AlternateLength(primary, secondary);
    if primary != [] && k > 0 { SecondaryAt(primary[1..], secondary[1..], k - 1); }
  }

  /** The k-th primary entry follows k secondary entries, or all of them when there are fewer. */
  lemma {:induction false} PrimaryAt<T>(primary: seq<T>, secondary: seq<T>, k: nat)
    requires k < |primary|
    ensures |Alternate(primary, secondary)| == |primary| + |secondary|
    ensures Alternate(primary, secondary)[k + Min(k, |secondary|)] == primary[k]
  {
    AlternateLength(primary, secondary);
    if secondary != [] && k > 0 { PrimaryAt(primary[1..], secondary[1..], k - 1); }
  }

  method MergeEntries<T>(pagePrimary: seq<T>, pageSecondary: seq<T>, limit: int) returns (result: seq<T>)
    requires |pagePrimary| + |pageSecondary| <= limit
    ensures result == Alternate(pagePrimary, pageSecondary)
  {
    hide Alternate;
    result := [];
    var secondaryIndex := 0;
    assert pagePrimary[0..] == pagePrimary && pageSecondary[0..] == pageSecondary;
    for i := 0 to |pagePrimary|
      invariant secondaryIndex == Min(i, |pageSecondary|)
      invariant |result| == i + secondaryIndex
      invariant result + Alternate(pagePrimary[i..], pageSecondary[secondaryIndex..])
             == Alternate(pagePrimary, pageSecondary)
    {
      AlternateStep(result, pagePrimary, pageSecondary, i, secondaryIndex);
      result := result + [pagePrimary[i]];
      if secondaryIndex < |pageSecondary| {
        result := result + [pageSecondary[secondaryIndex]];
        secondaryIndex := secondaryIndex + 1;
      }
    }
    assert pagePrimary[|pagePrimary|..] == [];
    NothingToAlternate(pageSecondary[secondaryIndex..]);
    while |result| < limit && secondaryIndex < |pageSecondary|
      invariant secondaryIndex <= |pageSecondary|
      invariant |result| == |pagePrimary| + secondaryIndex
      invariant result + pageSecondary[secondaryIndex..] == Alternate(pagePrimary, pageSecondary)
    {
      result := result + [pageSecondary[secondaryIndex]];
      secondaryIndex := secondaryIndex + 1;
    }
    assert pageSecondary[secondaryIndex..] == [];
  }

  /** The entries a page shows of the rows read for it, and whether another page follows. */
  method ComposeActivity<T>(primary: seq<T>, secondary: seq<T>, limit: int, w: SourceWindow,
      totalPrimary: int, totalSecondary: int)
    returns (results: seq<T>, hasNext: bool)
    requires limit >= 1 && 0 <= w.secondaryLimit <= limit
    ensures limit == 1 ==> results == Take(primary + secondary, 1)
    ensures limit == 1 ==>
              (hasNext <==> w.primaryOffset + |primary| < totalPrimary
                            || w.secondaryOffset + |secondary| < totalSecondary)
    ensures limit > 1 ==>
              var pageSecondary := Take(secondary, w.secondaryLimit);
              var pagePrimary := Take(primary, limit - |pageSecondary|);
              && results == Alternate(pagePrimary, pageSecondary)
              && (hasNext <==> w.primaryOffset + |pagePrimary| < totalPrimary
                               || w.secondaryOffset + |pageSecondary| < totalSecondary)
  {
    if limit == 1 {
      results := if primary != [] then [primary[0]] else Take(secondary, 1);
      hasNext := w.primaryOffset + |primary| < totalPrimary || w.secondaryOffset + |secondary| < totalSecondary;
      return;
    }
    var pageSecondary := Take(secondary, w.secondaryLimit);
    var pagePrimary := Take(primary, limit - |pageSecondary|);
    results := MergeEntries(pagePrimary, pageSecondary, limit);
    hasNext := w.primaryOffset + |pagePrimary| < totalPrimary
            || w.secondaryOffset + |pageSecondary| < totalSecondary;
  }

  lemma NothingToAlternate<T>(secondary: seq<T>)
    ensures Alternate([], secondary) == secondary
  {}

  lemma AlternateStep<T>(done: seq<T>, primary: seq<T>, secondary: seq<T>, i: int, j: int)
    requires 0 <= i < |primary| && 0 <= j <= |secondary|
    ensures j < |secondary| ==>
              done + Alternate(primary[i..], secondary[j..])
              == done + [primary[i]] + [secondary[j]] + Alternate(primary[i + 1..], secondary[j + 1..])
    ensures j == |secondary| ==>
              done + Alternate(primary[i..], secondary[j..])
              == done + [primary[i]] + Alternate(primary[i + 1..], secondary[j..])
  {
    assert primary[i..][1..] == primary[i + 1..];
    if j < |secondary| {
      assert secondary[j..][1..] == secondary[j + 1..];
    }
  }

  // ---------- The rows of one page ----------

  /** Rows of an ordered query with OFFSET and LIMIT. */
  function Rows<T>(source: seq<T>, offset: int, limit: int): seq<T>
    requires offset >= 0 && limit >= 0
  {
    source[Min(offset, |source|)..Min(offset + limit, |source|)]
  }

  ghost predicate Snapshot<T>(f: Feed, primary: seq<T>, secondary: seq<T>) {
    f.limit >= 1 && |primary| == f.totalPrimary && |secondary| == f.totalSecondary
  }

  lemma {:induction false} WindowsAreNatural(f: Feed, p: nat)
    requires f.limit >= 1
    ensures var w := f.Window(p);
            w.primaryOffset >= 0 && w.primaryLimit >= 0 && w.secondaryOffset >= 0 && w.secondaryLimit >= 0
    ensures f.Mixed() ==> f.Window(p).primaryOffset >= p
  {
    hide Feed.Window, Feed.Overlap;
    FirstWindow(f);
    WindowSizes(f, p);
    if p > 0 {
      WindowsAreNatural(f, p - 1);
      NextWindow(f, p - 1);
      WindowSizes(f, p - 1);
      if !f.Mixed() { NoOverlap(f, p - 1); }
    }
  }

  lemma NoOverlap(f: Feed, p: int)
    requires f.limit >= 1 && !f.Mixed()
    ensures f.Overlap(p) == 0
  {}

  function PagePrimary<T>(f: Feed, primary: seq<T>, p: nat): seq<T>
    requires f.limit >= 1
  {
    WindowsAreNatural(f, p);
    Rows(primary, f.Window(p).primaryOffset, f.Window(p).primaryLimit)
  }

  function PageSecondary<T>(f: Feed, secondary: seq<T>, p: nat): seq<T>
    requires f.limit >= 1
  {
    WindowsAreNatural(f, p);
    Rows(secondary, f.Window(p).secondaryOffset, f.Window(p).secondaryLimit)
  }

  predicate HasNext(f: Feed, p: nat)
    requires f.limit >= 1
  {
    || f.Window(p).primaryOffset + f.Window(p).primaryLimit < f.totalPrimary
    || f.Window(p).secondaryOffset + f.Window(p).secondaryLimit < f.totalSecondary
  }

  /** A page interleaves exactly the entries of its two windows, each in its own order. */
  method ReadPage<T>(f: Feed, primary: seq<T>, secondary: seq<T>, cursor: int) returns (results: seq<T>, hasNext: bool)
    requires Snapshot(f, primary, secondary) && cursor >= 1
    ensures Interleaves(results, PagePrimary(f, primary, cursor - 1), PageSecondary(f, secondary, cursor - 1))
    ensures hasNext <==> HasNext(f, cursor - 1)
  {
    var p := cursor - 1;
    var w := f.GetActivitySourceWindow(cursor);
    WindowsAreNatural(f, p);
    WindowSizes(f, p);
    var primaryRows, secondaryRows := PagePrimary(f, primary, p), PageSecondary(f, secondary, p);
    results, hasNext := ComposeActivity(primaryRows, secondaryRows, f.limit, w, f.totalPrimary, f.totalSecondary);
    if f.limit == 1 {
      assert primaryRows == [] || secondaryRows == [];
      OneSided(primaryRows);
      OneSided(secondaryRows);
      assert primaryRows + secondaryRows == results;
      assert primaryRows == [] ==> results == secondaryRows;
      assert secondaryRows == [] ==> results == primaryRows;
    } else {
      assert Take(secondaryRows, w.secondaryLimit) == secondaryRows;
      assert Take(primaryRows, f.limit - |secondaryRows|) == primaryRows;
      AlternateInterleaves(primaryRows, secondaryRows);
    }
  }

  // ---------- Walking the pages ----------

  ghost predicate ReadSoFar(f: Feed, p: nat, primary: bool, entry: nat)
    requires f.limit >= 1
  {
    exists k: nat :: k <= p && (if primary then f.ReadsPrimary(k, entry) else f.ReadsSecondary(k, entry))
  }

  /** The windows up to a page end where that page's windows end. */
  lemma EndsAreMonotone(f: Feed, k: nat, p: nat)
    requires f.limit >= 1 && k <= p
    ensures var w, last := f.Window(k), f.Window(p);
            && w.primaryOffset + w.primaryLimit <= last.primaryOffset + last.primaryLimit
            && w.secondaryOffset + w.secondaryLimit <= last.secondaryOffset + last.secondaryLimit
  {
    if k < p {
      hide Feed.Window, Feed.Overlap;
      LaterWindows(f, k, p);
      NextWindow(f, k);
      WindowSizes(f, k);
      WindowSizes(f, p);
      if !f.Mixed() { NoOverlap(f, k); }
    }
  }

  lemma UnreadIsBeyond(f: Feed, p: nat, primary: bool, entry: nat)
    requires f.limit >= 1 && entry < if primary then f.totalPrimary else f.totalSecondary
    ensures ReadSoFar(f, p, primary, entry) <==>
            var w := f.Window(p);
            entry < if primary then w.primaryOffset + w.primaryLimit else w.secondaryOffset + w.secondaryLimit
  {
    hide Feed.Window, Feed.Overlap;
    if ReadSoFar(f, p, primary, entry) {
      var k: nat :| k <= p && (if primary then f.ReadsPrimary(k, entry) else f.ReadsSecondary(k, entry));
      EndsAreMonotone(f, k, p);
    } else {
      var k;
      if primary { k := EveryPrimaryIsRead(f, entry); } else { k := EverySecondaryIsRead(f, entry); }
      assert k > p;
      LaterWindows(f, p, k);
      NextWindow(f, p);
      WindowSizes(f, p);
      if !f.Mixed() { NoOverlap(f, p); }
      assert primary ==> !f.ReadsPrimary(p, entry);
      assert !primary ==> !f.ReadsSecondary(p, entry);
    }
  }

  /** `hasNext` is false exactly when the pages so far cover every entry of both sources. */
  lemma HasNextExactly(f: Feed, p: nat)
    requires f.limit >= 1
    ensures !HasNext(f, p) <==>
            && (forall entry: nat :: entry < f.totalPrimary ==> ReadSoFar(f, p, true, entry))
            && (forall entry: nat :: entry < f.totalSecondary ==> ReadSoFar(f, p, false, entry))
  {
    hide Feed.Window;
    var w := f.Window(p);
    WindowsAreNatural(f, p);
    forall entry: nat | entry < f.totalPrimary
      ensures ReadSoFar(f, p, true, entry) <==> entry < w.primaryOffset + w.primaryLimit
    { UnreadIsBeyond(f, p, true, entry); }
    forall entry: nat | entry < f.totalSecondary
      ensures ReadSoFar(f, p, false, entry) <==> entry < w.secondaryOffset + w.secondaryLimit
    { UnreadIsBeyond(f, p, false, entry); }
    if w.primaryOffset + w.primaryLimit < f.totalPrimary {
      assert !ReadSoFar(f, p, true, w.primaryOffset + w.primaryLimit);
    }
    if w.secondaryOffset + w.secondaryLimit < f.totalSecondary {
      assert !ReadSoFar(f, p, false, w.secondaryOffset + w.secondaryLimit);
    }
  }

  /** A page after a true `hasNext` shows an entry that no earlier page showed. */
  lemma NextPageIsNew(f: Feed, p: nat) returns (primary: bool, entry: nat)
    requires f.limit >= 1 && HasNext(f, p)
    ensures !ReadSoFar(f, p, primary, entry)
    ensures if primary then f.ReadsPrimary(p + 1, entry) else f.ReadsSecondary(p + 1, entry)
  {
    WindowsAreNatural(f, p);
    var w := f.Window(p);
    primary := w.primaryOffset + w.primaryLimit < f.totalPrimary;
    entry := if primary then w.primaryOffset + w.primaryLimit else w.secondaryOffset + w.secondaryLimit;
    UnreadIsBeyond(f, p, primary, entry);
    NewEntryIsOnNextPage(f, p, primary, entry);
  }

  lemma NewEntryIsOnNextPage(f: Feed, p: nat, primary: bool, entry: nat)
    requires f.limit >= 1
    requires primary <==> f.Window(p).primaryOffset + f.Window(p).primaryLimit < f.totalPrimary
    requires primary ==> entry == f.Window(p).primaryOffset + f.Window(p).primaryLimit
    requires !primary ==> entry == f.Window(p).secondaryOffset + f.Window(p).secondaryLimit < f.totalSecondary
    ensures if primary then f.ReadsPrimary(p + 1, entry) else f.ReadsSecondary(p + 1, entry)
  {
    NextWindow(f, p);
    WindowSizes(f, p + 1);
    if f.limit >= 2 {
      QuotaBounds(f);
    }
  }

  /** The walk ends: there is no next page after as many pages as there are entries. */
  lemma WalkEnds(f: Feed, p: nat)
    requires f.limit >= 1 && HasNext(f, p)
    ensures p + 1 <= f.totalPrimary + f.totalSecondary
  {
    WindowsAreNatural(f, p);
    WindowSizes(f, p);
    if f.Mixed() {
      if f.Window(p).primaryOffset + f.Window(p).primaryLimit >= f.totalPrimary { SecondaryPagesAreFew(f, p); }
    } else if f.limit >= 2 {
      assert p * f.limit >= p;
    }
  }

  lemma SecondaryPagesAreFew(f: Feed, p: nat)
    requires f.Mixed() && f.Window(p).secondaryOffset + f.Window(p).secondaryLimit < f.totalSecondary
    ensures p < f.totalSecondary
  {
    QuotaBounds(f);
    assert p * f.SecondaryPerPage() >= p;
  }

  /** The primary entries shown by page `p` and the pages after it, while `hasNext` holds. */
  ghost function WalkPrimary<T>(f: Feed, primary: seq<T>, p: nat): seq<T>
    requires f.limit >= 1
    decreases f.totalPrimary + f.totalSecondary - p
  {
    PagePrimary(f, primary, p)
    + if HasNext(f, p) then WalkEnds(f, p); WalkPrimary(f, primary, p + 1) else []
  }

  ghost function WalkSecondary<T>(f: Feed, secondary: seq<T>, p: nat): seq<T>
    requires f.limit >= 1
    decreases f.totalPrimary + f.totalSecondary - p
  {
    PageSecondary(f, secondary, p)
    + if HasNext(f, p) then WalkEnds(f, p); WalkSecondary(f, secondary, p + 1) else []
  }

  lemma RowsFollow<T>(source: seq<T>, offset: int, limit: int)
    requires offset >= 0 && limit >= 0
    ensures Rows(source, offset, limit) + source[Min(offset + limit, |source|)..] == source[Min(offset, |source|)..]
  {}

  /** Walking a feed shows every secondary entry once, in order. */
  lemma {:induction false} WalkShowsSecondary<T>(f: Feed, secondary: seq<T>, p: nat)
    requires f.limit >= 1 && |secondary| == f.totalSecondary
    ensures f.Window(p).secondaryOffset >= 0
    ensures WalkSecondary(f, secondary, p) == secondary[Min(f.Window(p).secondaryOffset, |secondary|)..]
    decreases f.totalPrimary + f.totalSecondary - p
  {
    hide Feed.Window, Rows;
    WindowsAreNatural(f, p);
    var w := f.Window(p);
    RowsFollow(secondary, w.secondaryOffset, w.secondaryLimit);
    NextWindow(f, p);
    if HasNext(f, p) {
      WalkEnds(f, p);
      WalkShowsSecondary(f, secondary, p + 1);
    }
  }

  /** Whether the walk reaches the page that repeats the end of the page before it. */
  predicate WalkRepeats(f: Feed)
    requires f.limit >= 1
  {
    f.Mixed() && f.UnfilledQuota() > 0 && RepeatStart(f) + f.UnfilledQuota() < f.totalPrimary
  }

  lemma AroundTheRepeat(f: Feed, p: nat)
    requires f.Mixed() && p < f.PagesWithSecondary()
    ensures p + 1 < f.PagesWithSecondary() ==>
              f.Window(p + 1).primaryOffset <= RepeatStart(f) && f.Overlap(p) == 0
    ensures p + 1 == f.PagesWithSecondary() ==>
              && f.Window(p).primaryOffset + f.Window(p).primaryLimit == RepeatStart(f) + f.UnfilledQuota()
              && f.Window(p).secondaryOffset + f.Window(p).secondaryLimit == f.totalSecondary
              && f.Window(p + 1).primaryOffset == RepeatStart(f)
  {
    QuotaBounds(f);
    RepeatStartsAfterSecondary(f);
    NextWindow(f, p);
    if p + 1 < f.PagesWithSecondary() {
      hide Feed.Window;
      LaterWindows(f, p, f.PagesWithSecondary());
    }
  }

  lemma {:induction false} WalkWithoutRepeat<T>(f: Feed, primary: seq<T>, p: nat)
    requires f.limit >= 1 && |primary| == f.totalPrimary
    requires WalkRepeats(f) ==> p >= f.PagesWithSecondary()
    ensures f.Window(p).primaryOffset >= 0
    ensures WalkPrimary(f, primary, p) == primary[Min(f.Window(p).primaryOffset, |primary|)..]
    decreases f.totalPrimary + f.totalSecondary - p
  {
    hide Feed.Window, Rows;
    WindowsAreNatural(f, p);
    var w := f.Window(p);
    RowsFollow(primary, w.primaryOffset, w.primaryLimit);
    NextWindow(f, p);
    if f.Overlap(p) != 0 {
      QuotaBounds(f);
      AroundTheRepeat(f, p);
      assert !HasNext(f, p);
    }
    if HasNext(f, p) {
      WalkEnds(f, p);
      WalkWithoutRepeat(f, primary, p + 1);
    }
  }

  lemma {:induction false} WalkUpToRepeat<T>(f: Feed, primary: seq<T>, p: nat)
    requires f.limit >= 1 && |primary| == f.totalPrimary
    requires WalkRepeats(f) && p < f.PagesWithSecondary()
    ensures 0 <= f.Window(p).primaryOffset <= RepeatStart(f) + f.UnfilledQuota() && RepeatStart(f) >= 0
    ensures WalkPrimary(f, primary, p)
            == primary[f.Window(p).primaryOffset..RepeatStart(f) + f.UnfilledQuota()] + primary[RepeatStart(f)..]
    decreases f.PagesWithSecondary() - p
  {
    hide Feed.Window, Rows, Feed.PagesWithSecondary;
    WindowsAreNatural(f, p);
    WindowsAreNatural(f, p + 1);
    WindowSizes(f, p);
    NextWindow(f, p);
    AroundTheRepeat(f, p);
    ShownNow(f, primary, p);
    assert HasNext(f, p);
    WalkEnds(f, p);
    if p + 1 < f.PagesWithSecondary() {
      WalkUpToRepeat(f, primary, p + 1);
    } else {
      WalkWithoutRepeat(f, primary, p + 1);
    }
  }

  lemma ShownNow<T>(f: Feed, primary: seq<T>, p: nat)
    requires f.limit >= 1 && 0 <= f.Window(p).primaryOffset && 0 <= f.Window(p).primaryLimit
    requires f.Window(p).primaryOffset + f.Window(p).primaryLimit <= |primary|
    ensures PagePrimary(f, primary, p)
            == primary[f.Window(p).primaryOffset..f.Window(p).primaryOffset + f.Window(p).primaryLimit]
  {
    hide Feed.Window;
  }

  /** Walking a feed from its first page shows every primary entry once, in order, except that the entries in
      the unfilled part of the secondary quota are shown twice when the walk gets past them. */
  lemma WalkShowsPrimary<T>(f: Feed, primary: seq<T>)
    requires f.limit >= 1 && |primary| == f.totalPrimary
    ensures !WalkRepeats(f) ==> WalkPrimary(f, primary, 0) == primary
    ensures WalkRepeats(f) ==>
              && 0 <= RepeatStart(f)
              && WalkPrimary(f, primary, 0)
                 == primary[..RepeatStart(f) + f.UnfilledQuota()] + primary[RepeatStart(f)..]
  {
    FirstWindow(f);
    if f.limit >= 2 { QuotaBounds(f); }
    if WalkRepeats(f) {
      assert f.PagesWithSecondary() > 0;
      WalkUpToRepeat(f, primary, 0);
    } else {
      WalkWithoutRepeat(f, primary, 0);
    }
  }

  /** The walk is exact only when it repeats nothing: a repeat makes it longer than the list. */
  lemma WalkIsExact<T>(f: Feed, primary: seq<T>)
    requires f.limit >= 1 && |primary| == f.totalPrimary
    ensures WalkPrimary(f, primary, 0) == primary <==> !WalkRepeats(f)
  {
    WalkShowsPrimary(f, primary);
  }
}
