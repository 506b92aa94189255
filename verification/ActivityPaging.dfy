/** Splitting two activity sources over the pages of one feed. */
module ActivityPaging {

  const SECONDARY_ENTRY_LIMIT_WITH_PRIMARY := 2

  datatype SourceWindow = SourceWindow(
    primaryOffset: int,
    primaryLimit: int,
    secondaryOffset: int,
    secondaryLimit: int
  )

  function Min(a: int, b: int): int {
    if a < b then a else b
  }

  /** One feed: entries per page, and how many entries of each source the snapshot holds. */
  datatype Feed = Feed(limit: int, totalPrimary: nat, totalSecondary: nat) {

    /** With both sources and at least two entries per page, pages mix the sources. */
    predicate Mixed() {
      limit >= 2 && totalPrimary > 0
    }

    function SecondaryPerPage(): int {
      Min(SECONDARY_ENTRY_LIMIT_WITH_PRIMARY, limit - 1)
    }

    function PagesWithSecondary(): int
      requires limit >= 2
    {
      (totalSecondary + SecondaryPerPage() - 1) / SecondaryPerPage()
    }

    /** `cursor` is the page number, counted from 1. */
    function GetActivitySourceWindow(cursor: int): SourceWindow
      requires limit >= 1
    {
      Window(cursor - 1)
    }

    function Window(pageIndex: int): SourceWindow
      requires limit >= 1
    {
      if limit == 1 then
        if pageIndex < totalPrimary then SourceWindow(pageIndex, 1, 0, 0)
        else SourceWindow(totalPrimary, 0, pageIndex - totalPrimary, 1)
      else if totalPrimary == 0 then SourceWindow(0, 0, pageIndex * limit, limit)
      else
        var secondaryPerPage := SecondaryPerPage();
        var primaryPerPageWithSecondary := limit - secondaryPerPage;
        var pagesWithSecondary := PagesWithSecondary();
        var priorPagesWithSecondary := Min(pageIndex, pagesWithSecondary);
        var priorPagesWithoutSecondary := pageIndex - priorPagesWithSecondary;
        var pageSecondaryOffset :=
          if pageIndex < pagesWithSecondary then pageIndex * secondaryPerPage else totalSecondary;
        var pageSecondaryLimit :=
          if pageIndex < pagesWithSecondary then Min(secondaryPerPage, totalSecondary - pageSecondaryOffset) else 0;
        SourceWindow(
          priorPagesWithSecondary * primaryPerPageWithSecondary + priorPagesWithoutSecondary * limit,
          limit - pageSecondaryLimit,
          pageSecondaryOffset,
          pageSecondaryLimit)
    }

    /** The part of the last secondary quota that no secondary entry fills. */
    function UnfilledQuota(): int
      requires limit >= 2
    {
      PagesWithSecondary() * SecondaryPerPage() - totalSecondary
    }

    /** How many primary positions page `pageIndex` shares with the next page. */
    function Overlap(pageIndex: int): int
      requires limit >= 1
    {
      if Mixed() && pageIndex + 1 == PagesWithSecondary() then UnfilledQuota() else 0
    }

    predicate ReadsPrimary(pageIndex: nat, entry: nat)
      requires limit >= 1
    {
      var w := Window(pageIndex);
      entry < totalPrimary && w.primaryOffset <= entry < w.primaryOffset + w.primaryLimit
    }

    predicate ReadsSecondary(pageIndex: nat, entry: nat)
      requires limit >= 1
    {
      var w := Window(pageIndex);
      entry < totalSecondary && w.secondaryOffset <= entry < w.secondaryOffset + w.secondaryLimit
    }
  }

  // ---------- One page and the next ----------

  lemma QuotaBounds(f: Feed)
    requires f.limit >= 2
    ensures 1 <= f.SecondaryPerPage() < f.limit
    ensures 0 <= f.UnfilledQuota() < f.SecondaryPerPage()
    ensures f.PagesWithSecondary() >= 0
  {}

  /** Windows follow each other: secondary windows exactly, primary windows up to the overlap. */
  lemma NextWindow(f: Feed, p: nat)
    requires f.limit >= 1
    ensures var w, next := f.Window(p), f.Window(p + 1);
            && next.primaryOffset == w.primaryOffset + w.primaryLimit - f.Overlap(p)
            && next.secondaryOffset == w.secondaryOffset + w.secondaryLimit
  {
    if f.limit >= 2 && f.totalPrimary > 0 {
      QuotaBounds(f);
      var q, k := f.SecondaryPerPage(), f.PagesWithSecondary();
      assert (p + 1) * q == p * q + q;
      assert (p + 1) * (f.limit - q) == p * (f.limit - q) + (f.limit - q);
      if p >= k {
        assert (p + 1 - k) * f.limit == (p - k) * f.limit + f.limit;
      } else if p + 1 < k {
        FullQuota(f, p);
      } else {
        assert p * q == k * q - q;
      }
    } else if f.limit >= 2 {
      assert (p + 1) * f.limit == p * f.limit + f.limit;
    }
  }

  lemma FullQuota(f: Feed, p: nat)
    requires f.limit >= 2 && p + 1 < f.PagesWithSecondary()
    ensures f.totalSecondary - p * f.SecondaryPerPage() >= f.SecondaryPerPage()
  {
    QuotaBounds(f);
    var q, k := f.SecondaryPerPage(), f.PagesWithSecondary();
    assert (p + 2) * q <= k * q by { assert (k - p - 2) * q >= 0; assert (k - p - 2) * q == k * q - (p + 2) * q; }
    assert (p + 2) * q == p * q + 2 * q;
  }

  lemma FirstWindow(f: Feed)
    requires f.limit >= 1
    ensures f.Window(0).primaryOffset == 0 && f.Window(0).secondaryOffset == 0
  {}

  /** Every page holds at most `limit` entries, and a mixed page always leaves room for a primary entry
      beyond what the next page repeats. */
  lemma WindowSizes(f: Feed, p: nat)
    requires f.limit >= 1
    ensures var w := f.Window(p);
            && 0 <= w.primaryLimit && 0 <= w.secondaryLimit && w.primaryLimit + w.secondaryLimit == f.limit
            && (f.Mixed() ==> w.primaryLimit > f.Overlap(p) && w.primaryLimit > f.Overlap(p - 1) >= 0)
  {
    if f.Mixed() {
      QuotaBounds(f);
      if p < f.PagesWithSecondary() {
        if p + 1 < f.PagesWithSecondary() {
          FullQuota(f, p);
        } else {
          var q, k := f.SecondaryPerPage(), f.PagesWithSecondary();
          assert p * q == k * q - q by { assert p == k - 1; }
        }
      }
    }
  }

  // ---------- All pages ----------

  lemma {:induction false} LaterWindows(f: Feed, p: nat, later: nat)
    requires f.limit >= 1 && p < later
    ensures f.Window(later).primaryOffset >= f.Window(p + 1).primaryOffset
    ensures later > p + 1 ==> f.Window(later).primaryOffset >= f.Window(p).primaryOffset + f.Window(p).primaryLimit
    ensures f.Window(later).secondaryOffset >= f.Window(p).secondaryOffset + f.Window(p).secondaryLimit
    decreases later
  {
    hide Feed.Window;
    NextWindow(f, p);
    WindowSizes(f, p);
    if later > p + 1 {
      LaterWindows(f, p, later - 1);
      NextWindow(f, later - 1);
      WindowSizes(f, later - 1);
      WindowSizes(f, p + 1);
      NextWindow(f, p + 1);
    }
  }

  /** No primary entry is skipped. */
  lemma EveryPrimaryIsRead(f: Feed, entry: nat) returns (p: nat)
    requires f.limit >= 1 && entry < f.totalPrimary
    ensures f.ReadsPrimary(p, entry)
  {
    p := 0;
    FirstWindow(f);
    while f.Window(p).primaryOffset + f.Window(p).primaryLimit <= entry
      invariant f.Window(p).primaryOffset <= entry
      decreases entry - f.Window(p).primaryOffset
    {
      NextWindow(f, p);
      WindowSizes(f, p);
      p := p + 1;
    }
  }

  /** No secondary entry is skipped. */
  lemma EverySecondaryIsRead(f: Feed, entry: nat) returns (p: nat)
    requires f.limit >= 1 && entry < f.totalSecondary
    ensures f.ReadsSecondary(p, entry)
  {
    if f.limit == 1 { return f.totalPrimary + entry; }
    p := 0;
    FirstWindow(f);
    while f.Window(p).secondaryOffset + f.Window(p).secondaryLimit <= entry
      invariant f.Window(p).secondaryOffset <= entry
      decreases entry - f.Window(p).secondaryOffset
    {
      NextWindow(f, p);
      QuotaBounds(f);
      p := p + 1;
    }
  }

  /** Each secondary entry is read by exactly one page. */
  lemma SecondaryWindowsPartition(f: Feed, entry: nat, p: nat, other: nat)
    requires f.limit >= 1 && f.ReadsSecondary(p, entry) && f.ReadsSecondary(other, entry)
    ensures p == other
  {
    if p < other { LaterWindows(f, p, other); }
    if other < p { LaterWindows(f, other, p); }
  }

  /** The first primary position that is read twice, when any is. */
  function RepeatStart(f: Feed): int
    requires f.limit >= 2
  {
    f.PagesWithSecondary() * (f.limit - f.SecondaryPerPage())
  }

  ghost predicate ReadTwice(f: Feed, entry: nat) {
    && f.limit >= 2
    && entry < f.totalPrimary
    && RepeatStart(f) <= entry < RepeatStart(f) + f.UnfilledQuota()
  }

  /** Two pages share a primary entry exactly when they are the last page with secondary entries and
      the page after it, and the entry lies in the unfilled part of the secondary quota. */
  lemma PrimaryWindowsOverlap(f: Feed, entry: nat, p: nat, later: nat)
    requires f.limit >= 1 && p < later
    ensures f.ReadsPrimary(p, entry) && f.ReadsPrimary(later, entry) <==>
            ReadTwice(f, entry) && p + 1 == later == f.PagesWithSecondary()
  {
    hide Feed.Window;
    LaterWindows(f, p, later);
    NextWindow(f, p);
    WindowSizes(f, p);
    WindowSizes(f, later);
    if f.limit >= 2 {
      QuotaBounds(f);
      if f.totalPrimary > 0 { RepeatStartsAfterSecondary(f); }
    }
  }

  lemma RepeatStartsAfterSecondary(f: Feed)
    requires f.Mixed()
    ensures f.PagesWithSecondary() >= 0 && f.Window(f.PagesWithSecondary()).primaryOffset == RepeatStart(f)
  {
    QuotaBounds(f);
  }

  ghost predicate PrimaryWindowsAreDisjoint(f: Feed)
    requires f.limit >= 1
  {
    forall entry: nat, p: nat, other: nat ::
      f.ReadsPrimary(p, entry) && f.ReadsPrimary(other, entry) ==> p == other
  }

  /** Pages split the primary entries without repeats exactly when the secondary quota is always filled
      or the primary entries run out before the first page without secondary entries. */
  lemma DisjointExactly(f: Feed)
    requires f.limit >= 1
    ensures PrimaryWindowsAreDisjoint(f) <==>
            f.limit == 1 || f.totalSecondary % f.SecondaryPerPage() == 0 || f.totalPrimary <= RepeatStart(f)
  {
    if f.limit >= 2 {
      QuotaBounds(f);
      if f.totalSecondary % f.SecondaryPerPage() != 0 && f.totalPrimary > RepeatStart(f) {
        var k := f.PagesWithSecondary();
        assert k >= 1 && RepeatStart(f) >= 0;
        PrimaryWindowsOverlap(f, RepeatStart(f), k - 1, k);
      }
    }
    forall entry: nat, p: nat, other: nat | f.ReadsPrimary(p, entry) && f.ReadsPrimary(other, entry) && p < other
      ensures ReadTwice(f, entry)
    {
      PrimaryWindowsOverlap(f, entry, p, other);
    }
    forall entry: nat, p: nat, other: nat | f.ReadsPrimary(p, entry) && f.ReadsPrimary(other, entry) && other < p
      ensures ReadTwice(f, entry)
    {
      PrimaryWindowsOverlap(f, entry, other, p);
    }
  }

  /** Three entries per page, five primary and one secondary: the second page repeats an entry. */
  lemma RepeatedEntryExample()
    ensures var f := Feed(3, 5, 1); f.ReadsPrimary(0, 1) && f.ReadsPrimary(1, 1)
  {}
}
