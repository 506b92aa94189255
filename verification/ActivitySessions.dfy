/** Grouping timed rows of many owners into sessions: a session ends after a gap longer than `limit`.
    A row starts a session when it has no earlier row of its owner or the gap to the latest one is too
    long (LAG over created_at, id); its session number is the running sum of those starts. */
module ActivitySessions {

  datatype Row = Row(id: int, owner: int, createdAt: int)

  /** The order of the window functions: by time, then by id. */
  predicate Before(x: Row, y: Row) {
    x.createdAt < y.createdAt || (x.createdAt == y.createdAt && x.id < y.id)
  }

  predicate UpTo(x: Row, y: Row) {
    x == y || Before(x, y)
  }

  ghost predicate UniqueIds(table: set<Row>) {
    forall x, y :: x in table && y in table && x.id == y.id ==> x == y
  }

  ghost function Prior(table: set<Row>, row: Row): set<Row> {
    set x | x in table && x.owner == row.owner && Before(x, row)
  }

  /** `x` is the row LAG finds before `row` in the partition of its owner. */
  ghost predicate IsLag(table: set<Row>, x: Row, row: Row) {
    x in Prior(table, row) && forall y :: y in Prior(table, row) ==> UpTo(y, x)
  }

  ghost predicate IsSessionStart(table: set<Row>, limit: int, row: Row) {
    Prior(table, row) == {} || exists x :: IsLag(table, x, row) && row.createdAt - x.createdAt > limit
  }

  ghost function Starts(table: set<Row>, limit: int): set<Row> {
    set x | x in table && IsSessionStart(table, limit, x)
  }

  ghost function StartsUpTo(table: set<Row>, limit: int, row: Row): set<Row> {
    set x | x in Starts(table, limit) && x.owner == row.owner && UpTo(x, row)
  }

  ghost function SessionNumber(table: set<Row>, limit: int, row: Row): nat {
    |StartsUpTo(table, limit, row)|
  }

  // ---------- The latest row of a set ----------

  lemma {:induction false} LatestExists(rows: set<Row>) returns (latest: Row)
    requires rows != {} && UniqueIds(rows)
    ensures latest in rows && forall y :: y in rows ==> UpTo(y, latest)
    decreases |rows|
  {
    var x :| x in rows;
    if rows == {x} {
      latest := x;
    } else {
      assert rows == (rows - {x}) + {x};
      latest := LatestExists(rows - {x});
      if Before(latest, x) {
        forall y | y in rows ensures UpTo(y, x) {
          assert y != x ==> UpTo(y, latest);
        }
        latest := x;
      } else {
        assert latest.id != x.id;
      }
    }
  }

  lemma LagExists(table: set<Row>, row: Row) returns (x: Row)
    requires UniqueIds(table) && Prior(table, row) != {}
    ensures IsLag(table, x, row)
  {
    x := LatestExists(Prior(table, row));
  }

  lemma LagIsUnique(table: set<Row>, x: Row, y: Row, row: Row)
    requires IsLag(table, x, row) && IsLag(table, y, row)
    ensures x == y
  {
    assert UpTo(y, x) && UpTo(x, y);
  }

  // ---------- Sessions are the runs without a long gap ----------

  lemma {:induction false} SmallerSet<T>(small: set<T>, large: set<T>)
    requires small <= large
    ensures |small| <= |large| && (|small| == |large| <==> small == large)
  {
    var rest := large - small;
    assert large == small + rest;
    assert |large| == |small| + |rest|;
    assert |rest| == 0 <==> rest == {};
  }

  ghost predicate StartBetween(table: set<Row>, limit: int, row: Row, later: Row, start: Row) {
    start in Starts(table, limit) && start.owner == row.owner && Before(row, start) && UpTo(start, later)
  }

  lemma StartBetweenIsExtra(table: set<Row>, limit: int, row: Row, later: Row, start: Row)
    requires UniqueIds(table) && row in table && later in table
    requires row.owner == later.owner && Before(row, later)
    ensures StartBetween(table, limit, row, later, start) <==>
            start in StartsUpTo(table, limit, later) && start !in StartsUpTo(table, limit, row)
    ensures start in StartsUpTo(table, limit, row) ==> start in StartsUpTo(table, limit, later)
  {
    hide IsSessionStart;
  }

  /** Two rows of one owner share a session number exactly when no session starts between them. */
  lemma SameNumberMeansNoStart(table: set<Row>, limit: int, row: Row, later: Row)
    requires UniqueIds(table) && row in table && later in table
    requires row.owner == later.owner && Before(row, later)
    ensures SessionNumber(table, limit, row) <= SessionNumber(table, limit, later)
    ensures SessionNumber(table, limit, row) == SessionNumber(table, limit, later) <==>
            forall start :: !StartBetween(table, limit, row, later, start)
  {
    hide StartBetween, StartsUpTo;
    var few, many := StartsUpTo(table, limit, row), StartsUpTo(table, limit, later);
    forall start
      ensures StartBetween(table, limit, row, later, start) <==> start in many && start !in few
      ensures start in few ==> start in many
    {
      StartBetweenIsExtra(table, limit, row, later, start);
    }
    SmallerSet(few, many);
  }

  /** Neighbouring rows share a session number exactly when their gap is within the limit. */
  lemma NeighboursShareNumber(table: set<Row>, limit: int, row: Row, next: Row)
    requires UniqueIds(table) && next in table && IsLag(table, row, next)
    ensures SessionNumber(table, limit, row) == SessionNumber(table, limit, next) <==>
            next.createdAt - row.createdAt <= limit
  {
    SameNumberMeansNoStart(table, limit, row, next);
    if next.createdAt - row.createdAt > limit {
      assert StartBetween(table, limit, row, next, next);
    }
    forall start | StartBetween(table, limit, row, next, start) ensures next.createdAt - row.createdAt > limit {
      if start != next {
        assert start in Prior(table, next);
        assert UpTo(start, row);
      }
      assert Prior(table, next) != {};
      var x :| IsLag(table, x, next) && next.createdAt - x.createdAt > limit;
      LagIsUnique(table, x, row, next);
    }
  }

  /** Rows of one owner are in one session exactly when every gap on the way is within the limit. */
  lemma SessionsAreMaximalRuns(table: set<Row>, limit: int, row: Row, later: Row)
    requires UniqueIds(table) && row in table && later in table
    requires row.owner == later.owner && Before(row, later)
    ensures SessionNumber(table, limit, row) == SessionNumber(table, limit, later) <==>
            forall x, y :: y in table && IsLag(table, x, y) && y.owner == row.owner && Before(row, y) && UpTo(y, later)
                           ==> y.createdAt - x.createdAt <= limit
  {
    SameNumberMeansNoStart(table, limit, row, later);
    forall start | StartBetween(table, limit, row, later, start)
      ensures exists x :: IsLag(table, x, start) && start.createdAt - x.createdAt > limit
    {
      assert row in Prior(table, start);
    }
    forall x, y | y in table && IsLag(table, x, y) && y.owner == row.owner && Before(row, y) && UpTo(y, later)
                  && y.createdAt - x.createdAt > limit
      ensures StartBetween(table, limit, row, later, y)
    {}
  }

  /** Rows of one owner in different sessions lie more than the limit apart. */
  lemma SessionsAreSeparated(table: set<Row>, limit: int, row: Row, later: Row)
    requires UniqueIds(table) && row in table && later in table
    requires row.owner == later.owner && Before(row, later)
    requires SessionNumber(table, limit, row) != SessionNumber(table, limit, later)
    ensures later.createdAt - row.createdAt > limit
  {
    SameNumberMeansNoStart(table, limit, row, later);
    var start :| StartBetween(table, limit, row, later, start);
    assert row in Prior(table, start);
    var x :| IsLag(table, x, start) && start.createdAt - x.createdAt > limit;
    assert UpTo(row, x);
  }

  // ---------- Counting starts counts groups ----------

  ghost function GroupKey(table: set<Row>, limit: int, row: Row): (int, nat) {
    (row.owner, SessionNumber(table, limit, row))
  }

  /** The groups of GROUP BY owner, session_number. */
  ghost function Groups(table: set<Row>, limit: int): set<(int, nat)> {
    set row | row in table :: GroupKey(table, limit, row)
  }

  lemma {:induction false} StartOfSession(table: set<Row>, limit: int, row: Row) returns (start: Row)
    requires UniqueIds(table) && row in table
    ensures start in Starts(table, limit) && GroupKey(table, limit, start) == GroupKey(table, limit, row)
    decreases |Prior(table, row)|
  {
    if IsSessionStart(table, limit, row) {
      start := row;
    } else {
      var x := LagExists(table, row);
      assert Prior(table, x) < Prior(table, row) by { assert x in Prior(table, row) && x !in Prior(table, x); }
      SmallerSet(Prior(table, x), Prior(table, row));
      NeighboursShareNumber(table, limit, x, row);
      start := StartOfSession(table, limit, x);
    }
  }

  lemma StartsHaveTheirOwnKey(table: set<Row>, limit: int, x: Row, y: Row)
    requires UniqueIds(table) && x in Starts(table, limit) && y in Starts(table, limit)
    requires GroupKey(table, limit, x) == GroupKey(table, limit, y)
    ensures x == y
  {
    if Before(x, y) {
      SameNumberMeansNoStart(table, limit, x, y);
      assert StartBetween(table, limit, x, y, y);
    } else if Before(y, x) {
      SameNumberMeansNoStart(table, limit, y, x);
      assert StartBetween(table, limit, y, x, x);
    } else {
      assert x.id == y.id;
    }
  }

  lemma {:induction false} InjectiveImageSize(table: set<Row>, limit: int, starts: set<Row>)
    requires UniqueIds(table) && starts <= Starts(table, limit)
    ensures |set x | x in starts :: GroupKey(table, limit, x)| == |starts|
    decreases |starts|
  {
    var image := set x | x in starts :: GroupKey(table, limit, x);
    if starts != {} {
      var x :| x in starts;
      var fewer := starts - {x};
      var key := GroupKey(table, limit, x);
      InjectiveImageSize(table, limit, fewer);
      forall y | y in fewer ensures GroupKey(table, limit, y) != key {
        if GroupKey(table, limit, y) == key { StartsHaveTheirOwnKey(table, limit, x, y); }
      }
      var smaller := set y | y in fewer :: GroupKey(table, limit, y);
      assert image == smaller + {key};
    }
  }

  /** The sum of start marks, used to count a feed, equals the number of groups that paging produces. */
  lemma StartsCountGroups(table: set<Row>, limit: int)
    requires UniqueIds(table)
    ensures |Starts(table, limit)| == |Groups(table, limit)|
  {
    var starts := Starts(table, limit);
    var image := set x | x in starts :: GroupKey(table, limit, x);
    forall key | key in Groups(table, limit) ensures key in image {
      var row :| row in table && GroupKey(table, limit, row) == key;
      var start := StartOfSession(table, limit, row);
    }
    assert image == Groups(table, limit);
    InjectiveImageSize(table, limit, starts);
  }
}
