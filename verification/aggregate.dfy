/**
 * The analysis half of the analyser: per-category totals sorted from the
 * largest down, the per-(category, app) breakdown, the estimated total
 * screen time and the "books you could have read" figure. Durations are
 * seconds; hours appear only where the analyser reports them.
 */
module Aggregate {
  import opened Categories

  /** A row of the analysed table: a usage row with its category attached. */
  datatype Row = Row(app: string, start: int, duration: int, category: string)

  /** One line of the per-category report: a category and its summed seconds. */
  datatype Total = Total(category: string, seconds: int)

  predicate DurationsNonNegative(rows: seq<Row>) {
    forall i :: 0 <= i < |rows| ==> rows[i].duration >= 0
  }

  function SumDurations(rows: seq<Row>): int {
    if |rows| == 0 then 0 else rows[0].duration + SumDurations(rows[1..])
  }

  /** Seconds summed over the rows of category `c` (`groupby("category").sum()` at `c`). */
  function CategoryTotal(rows: seq<Row>, c: string): (t: int)
    ensures DurationsNonNegative(rows) ==> t >= 0
    ensures (forall i :: 0 <= i < |rows| ==> rows[i].category != c) ==> t == 0
  {
    if |rows| == 0 then 0
    else (if rows[0].category == c then rows[0].duration else 0) + CategoryTotal(rows[1..], c)
  }

  /** Seconds summed over the rows whose category is in `cs`. */
  function SumIn(rows: seq<Row>, cs: set<string>): int {
    if |rows| == 0 then 0
    else (if rows[0].category in cs then rows[0].duration else 0) + SumIn(rows[1..], cs)
  }

  /** The category column. */
  function CategoryColumn(rows: seq<Row>): (r: seq<string>)
    ensures |r| == |rows| && forall i :: 0 <= i < |rows| ==> r[i] == rows[i].category
  {
    if |rows| == 0 then [] else [rows[0].category] + CategoryColumn(rows[1..])
  }

  /** One total per listed category, in the listed order. */
  function Group(rows: seq<Row>, cats: seq<string>): (r: seq<Total>)
    ensures |r| == |cats|
    ensures forall i :: 0 <= i < |cats| ==> r[i].category == cats[i]
    ensures forall i :: 0 <= i < |cats| ==> r[i].seconds == CategoryTotal(rows, cats[i])
  {
    if |cats| == 0 then [] else [Total(cats[0], CategoryTotal(rows, cats[0]))] + Group(rows, cats[1..])
  }

  function SumTotals(ts: seq<Total>): int {
    if |ts| == 0 then 0 else ts[0].seconds + SumTotals(ts[1..])
  }

  predicate SortedDescending(ts: seq<Total>) {
    forall i, j :: 0 <= i < j < |ts| ==> ts[i].seconds >= ts[j].seconds
  }

  predicate DistinctCategories(ts: seq<Total>) {
    forall i, j :: 0 <= i < j < |ts| ==> ts[i].category != ts[j].category
  }

  /** Insert `t` ahead of the first total it is not smaller than. */
  function Insert(t: Total, ts: seq<Total>): (r: seq<Total>)
    ensures multiset(r) == multiset(ts) + multiset{t}
  {
    if |ts| == 0 then [t]
    else if t.seconds >= ts[0].seconds then [t] + ts
    else
      assert ts == [ts[0]] + ts[1..];
      [ts[0]] + Insert(t, ts[1..])
  }

  /** `sort_values(ascending=False)` by insertion: a permutation of the totals. */
  function SortDescending(ts: seq<Total>): (r: seq<Total>)
    ensures multiset(r) == multiset(ts)
  {
    if |ts| == 0 then []
    else
      assert ts == [ts[0]] + ts[1..];
      Insert(ts[0], SortDescending(ts[1..]))
  }

  lemma ElementOfPermutation(x: Total, a: seq<Total>, b: seq<Total>)
    requires multiset(a) == multiset(b) && x in a
    ensures x in b
  {
    assert x in multiset(a);
  }

  lemma {:induction false} InsertKeepsOrder(t: Total, ts: seq<Total>)
    requires SortedDescending(ts)
    ensures SortedDescending(Insert(t, ts))
  {
    if |ts| > 0 && t.seconds < ts[0].seconds {
      var rest := Insert(t, ts[1..]);
      InsertKeepsOrder(t, ts[1..]);
      forall i | 0 <= i < |rest| ensures ts[0].seconds >= rest[i].seconds {
        ElementOfPermutation(rest[i], rest, ts[1..] + [t]);
      }
    }
  }

  lemma {:induction false} InsertAddsToSum(t: Total, ts: seq<Total>)
    ensures SumTotals(Insert(t, ts)) == t.seconds + SumTotals(ts)
  {
    if |ts| > 0 && t.seconds < ts[0].seconds {
      InsertAddsToSum(t, ts[1..]);
    }
  }

  /** A total whose category is new keeps the categories distinct. */
  lemma {:induction false} ConsKeepsCategoriesDistinct(t: Total, ts: seq<Total>)
    requires DistinctCategories(ts)
    requires forall i :: 0 <= i < |ts| ==> t.category != ts[i].category
    ensures DistinctCategories([t] + ts)
  {
    var r := [t] + ts;
    forall i, j | 0 <= i < j < |r| ensures r[i].category != r[j].category {
      if i > 0 {
        assert r[i] == ts[i - 1];
      }
      assert r[j] == ts[j - 1];
    }
  }

  lemma {:induction false} InsertKeepsCategoriesDistinct(t: Total, ts: seq<Total>)
    requires DistinctCategories(ts)
    requires forall i :: 0 <= i < |ts| ==> ts[i].category != t.category
    ensures DistinctCategories(Insert(t, ts))
  {
    if |ts| > 0 && t.seconds < ts[0].seconds {
      var rest := Insert(t, ts[1..]);
      InsertKeepsCategoriesDistinct(t, ts[1..]);
      forall i | 0 <= i < |rest| ensures ts[0].category != rest[i].category {
        ElementOfPermutation(rest[i], rest, ts[1..] + [t]);
      }
      ConsKeepsCategoriesDistinct(ts[0], rest);
    }
  }

  /** Sorting yields non-increasing seconds, keeps the sum, and keeps categories distinct. */
  lemma {:induction false} SortDescendingCorrect(ts: seq<Total>)
    ensures SortedDescending(SortDescending(ts))
    ensures SumTotals(SortDescending(ts)) == SumTotals(ts)
    ensures DistinctCategories(ts) ==> DistinctCategories(SortDescending(ts))
  {
    if |ts| > 0 {
      var rest := SortDescending(ts[1..]);
      SortDescendingCorrect(ts[1..]);
      InsertKeepsOrder(ts[0], rest);
      InsertAddsToSum(ts[0], rest);
      if DistinctCategories(ts) {
        forall i | 0 <= i < |rest| ensures rest[i].category != ts[0].category {
          ElementOfPermutation(rest[i], rest, ts[1..]);
        }
        InsertKeepsCategoriesDistinct(ts[0], rest);
      }
    }
  }

  /** Seconds per category for the categories that occur, from the largest down. */
  function CategoryTotals(rows: seq<Row>): seq<Total> {
    SortDescending(Group(rows, Unique(CategoryColumn(rows))))
  }

  /** The earliest start among the rows (`df['start_time'].min()`). */
  function EarliestStart(rows: seq<Row>): (m: int)
    requires |rows| > 0
    ensures forall i :: 0 <= i < |rows| ==> m <= rows[i].start
    ensures exists i :: 0 <= i < |rows| && m == rows[i].start
  {
    if |rows| == 1 then rows[0].start
    else
      var rest := EarliestStart(rows[1..]);
      if rows[0].start <= rest then rows[0].start else rest
  }

  /** Estimated screen time: from the earliest start to `now`. */
  function TotalScreenTime(rows: seq<Row>, now: int): int
    requires |rows| > 0
  {
    now - EarliestStart(rows)
  }

  /** Seconds summed over the rows of one (category, app) pair. */
  function PairTotal(rows: seq<Row>, c: string, app: string): (t: int)
    ensures DurationsNonNegative(rows) ==> t >= 0
    ensures (forall i :: 0 <= i < |rows| ==> rows[i].category != c || rows[i].app != app) ==> t == 0
  {
    if |rows| == 0 then 0
    else (if rows[0].category == c && rows[0].app == app then rows[0].duration else 0) + PairTotal(rows[1..], c, app)
  }

  /** `groupby(["category", "app"]).sum()`: seconds per (category, app) pair that occurs. */
  function AppBreakdown(rows: seq<Row>): (m: map<(string, string), int>)
    ensures forall c, app :: (c, app) in m <==> exists i :: 0 <= i < |rows| && rows[i].category == c && rows[i].app == app
    ensures forall k :: k in m ==> m[k] == PairTotal(rows, k.0, k.1)
    ensures DurationsNonNegative(rows) ==> forall k :: k in m ==> m[k] >= 0
  {
    map k | k in PairsOf(rows) :: PairTotal(rows, k.0, k.1)
  }

  /** Every row has its (category, app) cell. */
  lemma {:induction false} RowHasCell(rows: seq<Row>, i: int)
    requires 0 <= i < |rows|
    ensures (rows[i].category, rows[i].app) in AppBreakdown(rows)
  {
    assert (rows[i].category, rows[i].app) in PairsOf(rows);
  }

  /** A cell of the unstacked breakdown after `fillna(0)`: 0 for a pair that does not occur. */
  function Cell(m: map<(string, string), int>, c: string, app: string): int {
    if (c, app) in m then m[(c, app)] else 0
  }

  /** The cells of category `c` across the listed apps, added up. */
  function CellSum(m: map<(string, string), int>, c: string, apps: seq<string>): int {
    if |apps| == 0 then 0 else Cell(m, c, apps[0]) + CellSum(m, c, apps[1..])
  }

  /** The app column. */
  function AppNames(rows: seq<Row>): (r: seq<string>)
    ensures |r| == |rows| && forall i :: 0 <= i < |rows| ==> r[i] == rows[i].app
  {
    if |rows| == 0 then [] else [rows[0].app] + AppNames(rows[1..])
  }

  /** The (category, app) pairs that occur in the rows. */
  function PairsOf(rows: seq<Row>): set<(string, string)> {
    set i | 0 <= i < |rows| :: (rows[i].category, rows[i].app)
  }

  /** `Series.get(c, 0)` on the per-category totals. */
  function Lookup(ts: seq<Total>, c: string): (v: int)
    ensures (forall i :: 0 <= i < |ts| ==> ts[i].category != c) ==> v == 0
    ensures DistinctCategories(ts) ==> forall i :: 0 <= i < |ts| && ts[i].category == c ==> v == ts[i].seconds
  {
    if |ts| == 0 then 0 else if ts[0].category == c then ts[0].seconds else Lookup(ts[1..], c)
  }

  function Hours(seconds: int): real {
    seconds as real / 3600.0
  }

  /** Seconds expressed as books of ten hours each. */
  function Books(seconds: int): real {
    Hours(seconds) / 10.0
  }

  /** Hours in games and browsing expressed as books; a missing category adds nothing. */
  function BooksRead(ts: seq<Total>): real {
    Books(Lookup(ts, Games) + Lookup(ts, Browsing))
  }

  /** The categories of the report lines, in report order. */
  function CategoryNames(ts: seq<Total>): (r: seq<string>)
    ensures |r| == |ts| && forall i :: 0 <= i < |ts| ==> r[i] == ts[i].category
  {
    if |ts| == 0 then [] else [ts[0].category] + CategoryNames(ts[1..])
  }

  /** Seconds summed over the rows of one app, whatever their category. */
  function AppTotal(rows: seq<Row>, app: string): int {
    if |rows| == 0 then 0
    else (if rows[0].app == app then rows[0].duration else 0) + AppTotal(rows[1..], app)
  }

  lemma {:induction false} SumInSplit(rows: seq<Row>, c: string, cs: set<string>)
    requires c !in cs
    ensures SumIn(rows, cs + {c}) == CategoryTotal(rows, c) + SumIn(rows, cs)
  {
    if |rows| > 0 {
      SumInSplit(rows[1..], c, cs);
    }
  }

  lemma {:induction false} SumInCovering(rows: seq<Row>, cs: set<string>)
    requires forall i :: 0 <= i < |rows| ==> rows[i].category in cs
    ensures SumIn(rows, cs) == SumDurations(rows)
  {
    if |rows| > 0 {
      SumInCovering(rows[1..], cs);
    }
  }

  /** The totals of distinct categories add up to the seconds of the rows in those categories. */
  lemma {:induction false} GroupSum(rows: seq<Row>, cats: seq<string>)
    requires NoDuplicates(cats)
    ensures SumTotals(Group(rows, cats)) == SumIn(rows, set c | c in cats)
  {
    if |cats| == 0 {
      assert (set c | c in cats) == {};
      SumInEmpty(rows);
    } else {
      var tail := cats[1..];
      GroupSum(rows, tail);
      assert (set c | c in cats) == (set c | c in tail) + {cats[0]};
      assert cats[0] !in tail;
      SumInSplit(rows, cats[0], set c | c in tail);
    }
  }

  lemma {:induction false} SumInEmpty(rows: seq<Row>)
    ensures SumIn(rows, {}) == 0
  {
    if |rows| > 0 {
      SumInEmpty(rows[1..]);
    }
  }

  /** Every report line is a grouped line and every grouped line is reported. */
  lemma {:induction false} SameLines(rows: seq<Row>)
    ensures forall x :: x in CategoryTotals(rows) <==> x in Group(rows, Unique(CategoryColumn(rows)))
  {
    var g := Group(rows, Unique(CategoryColumn(rows)));
    var ts := CategoryTotals(rows);
    forall x | x in ts ensures x in g {
      ElementOfPermutation(x, ts, g);
    }
    forall x | x in g ensures x in ts {
      ElementOfPermutation(x, g, ts);
    }
  }

  /** A line for each category that occurs and for no other. */
  lemma {:induction false} ReportedCategoriesOccur(rows: seq<Row>)
    ensures forall c :: c in CategoryNames(CategoryTotals(rows)) <==> c in CategoryColumn(rows)
  {
    var cats := Unique(CategoryColumn(rows));
    var g := Group(rows, cats);
    var ts := CategoryTotals(rows);
    SameLines(rows);
    forall c | c in CategoryNames(ts) ensures c in CategoryColumn(rows) {
      var i :| 0 <= i < |ts| && CategoryNames(ts)[i] == c;
      assert ts[i] in g;
      var j :| 0 <= j < |g| && g[j] == ts[i];
      assert cats[j] == c;
    }
    forall c | c in CategoryColumn(rows) ensures c in CategoryNames(ts) {
      var j :| 0 <= j < |cats| && cats[j] == c;
      assert g[j] in g;
      var i :| 0 <= i < |ts| && ts[i] == g[j];
      assert CategoryNames(ts)[i] == c;
    }
  }

  /** Each line holds the seconds of its own category, once. */
  lemma {:induction false} ReportedTotalsAreCategoryTotals(rows: seq<Row>)
    ensures var ts := CategoryTotals(rows);
      && DistinctCategories(ts)
      && (forall i :: 0 <= i < |ts| ==> ts[i].seconds == CategoryTotal(rows, ts[i].category))
      && (DurationsNonNegative(rows) ==> forall i :: 0 <= i < |ts| ==> ts[i].seconds >= 0)
  {
    var g := Group(rows, Unique(CategoryColumn(rows)));
    var ts := CategoryTotals(rows);
    SortDescendingCorrect(g);
    SameLines(rows);
    forall i | 0 <= i < |ts| ensures ts[i].seconds == CategoryTotal(rows, ts[i].category) {
      assert ts[i] in g;
    }
  }

  /**
   * The per-category report: lines in non-increasing order of seconds, one
   * per category that occurs and none for a category that does not, each
   * the seconds of its category, adding up to the seconds of all rows.
   */
  lemma {:induction false} CategoryTotalsCorrect(rows: seq<Row>)
    ensures var ts := CategoryTotals(rows);
      && SortedDescending(ts)
      && DistinctCategories(ts)
      && (forall c :: c in CategoryNames(ts) <==> c in CategoryColumn(rows))
      && (forall i :: 0 <= i < |ts| ==> ts[i].seconds == CategoryTotal(rows, ts[i].category))
      && SumTotals(ts) == SumDurations(rows)
      && (DurationsNonNegative(rows) ==> forall i :: 0 <= i < |ts| ==> ts[i].seconds >= 0)
  {
    var cats := Unique(CategoryColumn(rows));
    SortDescendingCorrect(Group(rows, cats));
    ReportedCategoriesOccur(rows);
    ReportedTotalsAreCategoryTotals(rows);
    GroupSum(rows, cats);
    SumInCovering(rows, set c | c in cats);
  }

  /** `get(c, 0)` on the report finds the category's seconds, and 0 for a category that does not occur. */
  lemma {:induction false} LookupIsCategoryTotal(rows: seq<Row>, c: string)
    ensures Lookup(CategoryTotals(rows), c) == CategoryTotal(rows, c)
  {
    var ts := CategoryTotals(rows);
    CategoryTotalsCorrect(rows);
    if c in CategoryNames(ts) {
      var i :| 0 <= i < |ts| && CategoryNames(ts)[i] == c;
    } else {
      assert forall i :: 0 <= i < |ts| ==> ts[i].category != c by {
        forall i | 0 <= i < |ts| ensures ts[i].category != c {
          assert CategoryNames(ts)[i] == ts[i].category;
        }
      }
      assert forall i :: 0 <= i < |rows| ==> rows[i].category != c by {
        forall i | 0 <= i < |rows| ensures rows[i].category != c {
          assert CategoryColumn(rows)[i] == rows[i].category;
        }
      }
    }
  }

  /** The books figure follows from the two category totals it reads. */
  lemma BooksReadOf(ts: seq<Total>, games: int, browsing: int)
    requires Lookup(ts, Games) == games && Lookup(ts, Browsing) == browsing
    ensures BooksRead(ts) == Books(games + browsing)
  {
  }

  /**
   * When every duration runs to `now`, the screen time is the longest
   * duration: at least each one, and equal to one of them.
   */
  lemma {:induction false} ScreenTimeIsLongestDuration(rows: seq<Row>, now: int)
    requires |rows| > 0
    requires forall i :: 0 <= i < |rows| ==> rows[i].duration == now - rows[i].start
    ensures forall i :: 0 <= i < |rows| ==> TotalScreenTime(rows, now) >= rows[i].duration
    ensures exists i :: 0 <= i < |rows| && TotalScreenTime(rows, now) == rows[i].duration
  {
    var i :| 0 <= i < |rows| && EarliestStart(rows) == rows[i].start;
    assert TotalScreenTime(rows, now) == rows[i].duration;
  }

  /**
   * When an app has one category throughout, its breakdown cell holds all
   * its seconds: the (category, app) grouping never splits an app.
   */
  lemma {:induction false} PairTotalIsAppTotal(rows: seq<Row>, c: string, app: string)
    requires forall i :: 0 <= i < |rows| && rows[i].app == app ==> rows[i].category == c
    ensures PairTotal(rows, c, app) == AppTotal(rows, app)
  {
    if |rows| > 0 {
      PairTotalIsAppTotal(rows[1..], c, app);
    }
  }

  /** Seconds summed over the rows of category `c` whose app is in `apps`. */
  function PairsIn(rows: seq<Row>, c: string, apps: set<string>): int {
    if |rows| == 0 then 0
    else (if rows[0].category == c && rows[0].app in apps then rows[0].duration else 0) + PairsIn(rows[1..], c, apps)
  }

  lemma {:induction false} PairsInEmpty(rows: seq<Row>, c: string)
    ensures PairsIn(rows, c, {}) == 0
  {
    if |rows| > 0 {
      PairsInEmpty(rows[1..], c);
    }
  }

  lemma {:induction false} PairsInSplit(rows: seq<Row>, c: string, app: string, apps: set<string>)
    requires app !in apps
    ensures PairsIn(rows, c, apps + {app}) == PairTotal(rows, c, app) + PairsIn(rows, c, apps)
  {
    if |rows| > 0 {
      PairsInSplit(rows[1..], c, app, apps);
    }
  }

  lemma {:induction false} PairsInCovering(rows: seq<Row>, c: string, apps: set<string>)
    requires forall i :: 0 <= i < |rows| ==> rows[i].app in apps
    ensures PairsIn(rows, c, apps) == CategoryTotal(rows, c)
  {
    if |rows| > 0 {
      PairsInCovering(rows[1..], c, apps);
    }
  }

  /** The zero-filled cell is the pair's seconds, whether or not the pair occurs. */
  lemma {:induction false} CellIsPairTotal(rows: seq<Row>, c: string, app: string)
    ensures Cell(AppBreakdown(rows), c, app) == PairTotal(rows, c, app)
  {
  }

  /** The cells of distinct apps add up to the seconds of the rows of those apps. */
  lemma {:induction false} CellSumOfDistinctApps(rows: seq<Row>, c: string, apps: seq<string>)
    requires NoDuplicates(apps)
    ensures CellSum(AppBreakdown(rows), c, apps) == PairsIn(rows, c, set a | a in apps)
  {
    if |apps| == 0 {
      assert (set a | a in apps) == {};
      PairsInEmpty(rows, c);
    } else {
      var tail := apps[1..];
      CellSumOfDistinctApps(rows, c, tail);
      assert (set a | a in apps) == (set a | a in tail) + {apps[0]};
      assert apps[0] !in tail;
      PairsInSplit(rows, c, apps[0], set a | a in tail);
      CellIsPairTotal(rows, c, apps[0]);
    }
  }

  /** The cells of a category across distinct apps that cover every row add up to the category's seconds. */
  lemma {:induction false} CellSumCoversCategory(rows: seq<Row>, c: string, apps: seq<string>)
    requires NoDuplicates(apps)
    requires forall i :: 0 <= i < |rows| ==> rows[i].app in apps
    ensures CellSum(AppBreakdown(rows), c, apps) == CategoryTotal(rows, c)
  {
    CellSumOfDistinctApps(rows, c, apps);
    PairsInCovering(rows, c, set a | a in apps);
  }

  /**
   * The breakdown refines the per-category totals: across all the apps, the
   * zero-filled cells of a category add up to that category's seconds, and
   * under non-negative durations no cell is negative.
   */
  lemma {:induction false} BreakdownRefinesTotals(rows: seq<Row>, c: string)
    ensures CellSum(AppBreakdown(rows), c, Unique(AppNames(rows))) == CategoryTotal(rows, c)
    ensures DurationsNonNegative(rows) ==> forall app :: Cell(AppBreakdown(rows), c, app) >= 0
  {
    var apps := Unique(AppNames(rows));
    forall i | 0 <= i < |rows| ensures rows[i].app in apps {
      assert AppNames(rows)[i] == rows[i].app;
    }
    CellSumCoversCategory(rows, c, apps);
  }
}
