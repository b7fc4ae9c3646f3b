/**
 * The historical analyser end to end: collect the processes of the last
 * seven days, drop the noise processes, classify each distinct app once,
 * and aggregate. One `now` serves the whole run.
 */
module Analyzer {
  import opened Wrappers
  import opened Collect
  import opened Categories
  import opened Aggregate

  /** System and tool processes never counted as usage. */
  const IgnoreList: seq<string> := [
    "svchost.exe", "RuntimeBroker.exe", "dllhost.exe",
    "SearchIndexer.exe", "conhost.exe", "LockApp.exe",
    "wlanext.exe", "unsecapp.exe", "WmiPrvSE.exe", "lsass.exe",
    "csrss.exe", "smss.exe", "wininit.exe", "winlogon.exe",
    "System Idle Process", "explorer.exe", "py.exe", "python.exe", "pythonw.exe"
  ]

  /** Exact, case-sensitive membership in the ignore list (`isin`). */
  predicate IsIgnored(name: string) {
    name in IgnoreList
  }

  /** `df[~df["app"].isin(ignore_list)]`: the rows of apps not ignored, in order. */
  function DropIgnored(rows: seq<Usage>): (r: seq<Usage>)
    ensures |r| <= |rows|
    ensures forall i :: 0 <= i < |r| ==> !IsIgnored(r[i].app)
  {
    if |rows| == 0 then []
    else
      var rest := DropIgnored(rows[1..]);
      if IsIgnored(rows[0].app) then rest else [rows[0]] + rest
  }

  /** Exactly the rows of apps not on the ignore list are kept. */
  lemma {:induction false} DropIgnoredKeeps(rows: seq<Usage>)
    ensures forall u :: u in DropIgnored(rows) <==> u in rows && !IsIgnored(u.app)
  {
    if |rows| > 0 {
      DropIgnoredKeeps(rows[1..]);
      assert forall u :: u in rows <==> u == rows[0] || u in rows[1..];
    }
  }

  /** The app column of usage rows; `Aggregate.AppNames` is its counterpart over categorised rows. */
  function AppColumn(rows: seq<Usage>): (r: seq<string>)
    ensures |r| == |rows| && forall i :: 0 <= i < |rows| ==> r[i] == rows[i].app
  {
    if |rows| == 0 then [] else [rows[0].app] + AppColumn(rows[1..])
  }

  /** `df["app"].map(app_categories)`: each row gets its app's category, nothing else changes. */
  function Categorise(rows: seq<Usage>, categories: map<string, string>): (r: seq<Row>)
    requires forall i :: 0 <= i < |rows| ==> rows[i].app in categories
    ensures |r| == |rows|
    ensures forall i :: 0 <= i < |rows| ==>
      r[i] == Row(rows[i].app, rows[i].start, rows[i].duration, categories[rows[i].app])
  {
    if |rows| == 0 then []
    else [Row(rows[0].app, rows[0].start, rows[0].duration, categories[rows[0].app])]
         + Categorise(rows[1..], categories)
  }

  /**
   * What a completed run computes, in seconds; rounding to hours is
   * presentation. Only the screen time, the category totals and the books
   * figure are printed. The breakdown is computed but never printed, and
   * `classifierCalls` is a record of the names handed to the classifier,
   * in call order, kept so that the calls can be stated.
   */
  datatype Report = Report(
    screenTime: int,
    categoryTotals: seq<Total>,
    appBreakdown: map<(string, string), int>,
    booksRead: real,
    classifierCalls: seq<string>)

  /**
   * Why a run ends without a report although processes were collected. The
   * app in `EmptyRanking` is the model's record of where classification
   * stopped; the analyser itself prints only the exception's message.
   */
  datatype Failure =
    | AllRowsIgnored
    | EmptyRanking(app: string)

  /** The end of a run: nothing in the window, a failure, or a report. */
  datatype Outcome =
    | NoData
    | Failed(failure: Failure)
    | Done(report: Report)

  /** The analysis of the rows left after the ignore filter. */
  function AnalyzeKept(kept: seq<Usage>, now: int, rank: Ranker): Outcome {
    if |kept| == 0 then Failed(AllRowsIgnored)
    else
      var apps := Unique(AppColumn(kept));
      match ClassifyAll(apps, rank)
      case NoLabelFor(a) => Failed(EmptyRanking(a))
      case Labelled(categories, calls) =>
        assert forall i :: 0 <= i < |kept| ==> AppColumn(kept)[i] in apps;
        Done(BuildReport(Categorise(kept, categories), now, calls))
  }

  /** The report on the analysed rows. */
  function BuildReport(rows: seq<Row>, now: int, calls: seq<string>): Report
    requires |rows| > 0
  {
    Report(TotalScreenTime(rows, now), CategoryTotals(rows), AppBreakdown(rows), BooksRead(CategoryTotals(rows)), calls)
  }

  /**
   * The analyser on the processes `ps` at instant `now`, classifying with
   * `rank`. Emptiness is judged on the collected rows, before the ignore
   * filter runs.
   */
  function Analyze(ps: seq<RawProcess>, now: int, rank: Ranker): Outcome {
    var collected := CollectRows(ps, now);
    if |collected| == 0 then NoData else AnalyzeKept(DropIgnored(collected), now, rank)
  }

  /** The rows that survive the window and the ignore list. */
  function KeptRows(ps: seq<RawProcess>, now: int): seq<Usage> {
    DropIgnored(CollectRows(ps, now))
  }

  /**
   * Seconds summed over usage rows; `Aggregate.SumDurations` is its
   * counterpart over categorised rows (`CategoriseTotals`).
   */
  function SecondsOf(rows: seq<Usage>): int {
    if |rows| == 0 then 0 else rows[0].duration + SecondsOf(rows[1..])
  }

  /** Seconds summed over the usage rows whose app is ranked first into label `c`. */
  function SecondsLabelled(rows: seq<Usage>, rank: Ranker, c: string): int {
    if |rows| == 0 then 0
    else (if ClassifyApp(rank, rows[0].app) == Some(c) then rows[0].duration else 0)
         + SecondsLabelled(rows[1..], rank, c)
  }

  /** Ignoring distributes over concatenation. */
  lemma {:induction false} DropIgnoredAppend(a: seq<Usage>, b: seq<Usage>)
    ensures DropIgnored(a + b) == DropIgnored(a) + DropIgnored(b)
  {
    if |a| > 0 {
      var head, rest, tail := DropIgnored([a[0]]), DropIgnored(a[1..]), DropIgnored(b);
      DropIgnoredAppend(a[1..], b);
      DropIgnoredCons(a);
      DropIgnoredConsAppend(a, b);
      assert head + (rest + tail) == head + rest + tail;
    } else {
      assert a + b == b;
      assert DropIgnored(a) == [];
    }
  }

  /** The filter on `a + b` splits off the first row of `a`. */
  lemma {:induction false} DropIgnoredConsAppend(a: seq<Usage>, b: seq<Usage>)
    requires |a| > 0
    ensures DropIgnored(a + b) == DropIgnored([a[0]]) + DropIgnored(a[1..] + b)
  {
    DropIgnoredCons(a + b);
    assert (a + b)[0] == a[0];
    assert (a + b)[1..] == a[1..] + b;
  }

  /** The filter handles the first row on its own. */
  lemma {:induction false} DropIgnoredCons(rows: seq<Usage>)
    requires |rows| > 0
    ensures DropIgnored(rows) == DropIgnored([rows[0]]) + DropIgnored(rows[1..])
  {
    assert [rows[0]][1..] == [];
    assert DropIgnored([rows[0]]) == if IsIgnored(rows[0].app) then [] else [rows[0]];
  }

  /** The classifier labelled every kept app with its top-ranked label. */
  predicate LabelledByRank(rows: seq<Usage>, categories: map<string, string>, rank: Ranker) {
    forall i :: 0 <= i < |rows| ==> rows[i].app in categories && ClassifyApp(rank, rows[i].app) == Some(categories[rows[i].app])
  }

  /** Category totals of the analysed rows are the seconds labelled by the classifier. */
  lemma {:induction false} CategoriseTotals(rows: seq<Usage>, categories: map<string, string>, rank: Ranker, c: string)
    requires LabelledByRank(rows, categories, rank)
    ensures CategoryTotal(Categorise(rows, categories), c) == SecondsLabelled(rows, rank, c)
    ensures SumDurations(Categorise(rows, categories)) == SecondsOf(rows)
  {
    if |rows| > 0 {
      CategoriseTotals(rows[1..], categories, rank, c);
      assert Categorise(rows, categories)[1..] == Categorise(rows[1..], categories);
    }
  }

  /**
   * What a run needs to report: some row survives the ignore list, and the
   * classifier ranks every kept app with at least one label.
   */
  predicate Completes(ps: seq<RawProcess>, now: int, rank: Ranker) {
    |KeptRows(ps, now)| > 0 && forall u :: u in KeptRows(ps, now) ==> |rank(u.app)| > 0
  }

  /** The distinct apps of some rows are exactly the apps that occur in them, without repeats. */
  lemma {:induction false} AppsOfRows(kept: seq<Usage>)
    ensures var apps := Unique(AppColumn(kept));
      && NoDuplicates(apps)
      && forall a :: a in apps <==> exists u :: u in kept && u.app == a
  {
    var apps := Unique(AppColumn(kept));
    forall a ensures a in apps <==> exists u :: u in kept && u.app == a {
      if a in AppColumn(kept) {
        var i :| 0 <= i < |kept| && AppColumn(kept)[i] == a;
        assert kept[i] in kept;
      }
      if u :| u in kept && u.app == a {
        var i :| 0 <= i < |kept| && kept[i] == u;
        assert AppColumn(kept)[i] == a;
      }
    }
  }

  /** The analysis of rows whose apps are all ranked: every app labelled by its top-ranked label, and the report built from those rows. */
  lemma {:induction false} CompletedRun(kept: seq<Usage>, now: int, rank: Ranker) returns (categories: map<string, string>)
    requires |kept| > 0
    requires forall u :: u in kept ==> |rank(u.app)| > 0
    ensures LabelledByRank(kept, categories, rank)
    ensures AnalyzeKept(kept, now, rank)
         == Done(BuildReport(Categorise(kept, categories), now, Unique(AppColumn(kept))))
  {
    var apps := Unique(AppColumn(kept));
    AppsOfRows(kept);
    ClassifyAllFailsOnlyOnEmptyRanking(apps, rank);
    var c := ClassifyAll(apps, rank);
    categories := c.categories;
    forall i | 0 <= i < |kept|
      ensures kept[i].app in categories && ClassifyApp(rank, kept[i].app) == Some(categories[kept[i].app])
    {
      assert AppColumn(kept)[i] == kept[i].app;
      assert kept[i].app in apps;
    }
  }

  /**
   * A run reports exactly when some row survives the ignore list and every
   * kept app gets a label from the classifier.
   */
  lemma {:induction false} DoneExactlyWhenCompletes(ps: seq<RawProcess>, now: int, rank: Ranker)
    ensures Analyze(ps, now, rank).Done? <==> Completes(ps, now, rank)
  {
    var collected := CollectRows(ps, now);
    var kept := KeptRows(ps, now);
    if |collected| == 0 {
      assert kept == [];
    } else if |kept| > 0 {
      var apps := Unique(AppColumn(kept));
      AppsOfRows(kept);
      ClassifyAllFailsOnlyOnEmptyRanking(apps, rank);
    }
  }

  /**
   * The report of a completed run, built from the kept rows labelled by
   * their top-ranked labels.
   */
  lemma {:induction false} ReportOfKept(ps: seq<RawProcess>, now: int, rank: Ranker) returns (categories: map<string, string>)
    requires Completes(ps, now, rank)
    ensures Analyze(ps, now, rank).Done?
    ensures LabelledByRank(KeptRows(ps, now), categories, rank)
    ensures Analyze(ps, now, rank).report
         == BuildReport(Categorise(KeptRows(ps, now), categories), now, Unique(AppColumn(KeptRows(ps, now))))
  {
    var kept := KeptRows(ps, now);
    assert |CollectRows(ps, now)| > 0;
    categories := CompletedRun(kept, now, rank);
    assert Analyze(ps, now, rank) == AnalyzeKept(kept, now, rank);
  }

  /** A process that yields no row (no usable date, or older than the window) changes nothing. */
  lemma DroppedProcessIrrelevant(a: seq<RawProcess>, p: RawProcess, b: seq<RawProcess>, now: int, rank: Ranker)
    requires Observe(p, now).None?
    ensures Analyze(a + [p] + b, now, rank) == Analyze(a + b, now, rank)
  {
    SkippedProcessLeavesNoTrace(a, p, b, now);
  }

  /**
   * Adding an ignored process adds at most its own row to the collected
   * rows, and nothing to the kept ones.
   */
  lemma {:induction false} IgnoredProcessRows(a: seq<RawProcess>, p: RawProcess, b: seq<RawProcess>, now: int)
    requires IsIgnored(p.name)
    ensures KeptRows(a + [p] + b, now) == KeptRows(a + b, now)
    ensures |CollectRows(a + [p] + b, now)| == |CollectRows(a + b, now)| + (if Observe(p, now).Some? then 1 else 0)
  {
    var ca, cp, cb := CollectRows(a, now), CollectRows([p], now), CollectRows(b, now);
    assert CollectRows(a + [p] + b, now) == ca + cp + cb by {
      CollectRowsAppend(a + [p], b, now);
      CollectRowsAppend(a, [p], now);
    }
    assert CollectRows(a + b, now) == ca + cb by {
      CollectRowsAppend(a, b, now);
    }
    assert DropIgnored(cp) == [] && |cp| == (if Observe(p, now).Some? then 1 else 0) by {
      CollectOne(p, now);
    }
    assert KeptRows(a + [p] + b, now) == KeptRows(a + b, now) by {
      DropIgnoredAppend(ca + cp, cb);
      DropIgnoredAppend(ca, cp);
      DropIgnoredAppend(ca, cb);
    }
  }

  /**
   * A process on the ignore list never shapes a run. It can only turn "no
   * data" into "every row ignored", when it is the one process that yields a
   * row; otherwise the run with it ends as the run without it.
   */
  lemma {:induction false} IgnoredProcessIrrelevant(a: seq<RawProcess>, p: RawProcess, b: seq<RawProcess>, now: int, rank: Ranker)
    requires IsIgnored(p.name)
    ensures !Analyze(a + b, now, rank).NoData? ==> Analyze(a + [p] + b, now, rank) == Analyze(a + b, now, rank)
    ensures Analyze(a + b, now, rank).NoData? ==>
      Analyze(a + [p] + b, now, rank) == (if Observe(p, now).Some? then Failed(AllRowsIgnored) else NoData)
  {
    IgnoredProcessRows(a, p, b, now);
    if |CollectRows(a + b, now)| == 0 {
      assert KeptRows(a + b, now) == [];
    }
  }

  /**
   * The classifier is asked once per distinct kept app and about nothing
   * else: never about an ignored process or one outside the window.
   */
  lemma {:induction false} ClassifierCalledOncePerApp(ps: seq<RawProcess>, now: int, rank: Ranker)
    requires Completes(ps, now, rank)
    ensures Analyze(ps, now, rank).Done?
    ensures var calls := Analyze(ps, now, rank).report.classifierCalls;
      && NoDuplicates(calls)
      && (forall a :: a in calls <==> exists u :: u in KeptRows(ps, now) && u.app == a)
      && (forall a :: a in calls ==> !IsIgnored(a))
  {
    var kept := KeptRows(ps, now);
    var _ := ReportOfKept(ps, now, rank);
    assert Analyze(ps, now, rank).report.classifierCalls == Unique(AppColumn(kept));
    KeptAppsNotIgnored(ps, now);
    AppsOfRows(kept);
  }

  /**
   * Seconds summed over the usage rows of one app; `Aggregate.AppTotal` is
   * its counterpart over categorised rows (`AppTotalOfCategorised`).
   */
  function SecondsOfApp(rows: seq<Usage>, app: string): int {
    if |rows| == 0 then 0
    else (if rows[0].app == app then rows[0].duration else 0) + SecondsOfApp(rows[1..], app)
  }

  /** The categories of the analysed rows are the top-ranked labels of the kept apps. */
  lemma {:induction false} CategorisedColumn(kept: seq<Usage>, categories: map<string, string>, rank: Ranker)
    requires LabelledByRank(kept, categories, rank)
    ensures forall c :: c in CategoryColumn(Categorise(kept, categories))
                    <==> exists u :: u in kept && ClassifyApp(rank, u.app) == Some(c)
  {
    var rows := Categorise(kept, categories);
    forall c ensures c in CategoryColumn(rows) <==> exists u :: u in kept && ClassifyApp(rank, u.app) == Some(c) {
      if c in CategoryColumn(rows) {
        var i :| 0 <= i < |rows| && CategoryColumn(rows)[i] == c;
        assert kept[i] in kept;
      }
      if u :| u in kept && ClassifyApp(rank, u.app) == Some(c) {
        var i :| 0 <= i < |kept| && kept[i] == u;
        assert CategoryColumn(rows)[i] == c;
      }
    }
  }

  /** Attaching categories keeps each app's seconds. */
  lemma {:induction false} AppTotalOfCategorised(kept: seq<Usage>, categories: map<string, string>, app: string)
    requires forall i :: 0 <= i < |kept| ==> kept[i].app in categories
    ensures AppTotal(Categorise(kept, categories), app) == SecondsOfApp(kept, app)
  {
    if |kept| > 0 {
      AppTotalOfCategorised(kept[1..], categories, app);
      assert Categorise(kept, categories)[1..] == Categorise(kept[1..], categories);
    }
  }

  /** The per-category lines of the analysed rows, stated over the kept rows and the classifier. */
  lemma {:induction false} CategorisedTotals(kept: seq<Usage>, categories: map<string, string>, rank: Ranker)
    requires LabelledByRank(kept, categories, rank)
    ensures var ts := CategoryTotals(Categorise(kept, categories));
      && SortedDescending(ts)
      && DistinctCategories(ts)
      && (forall i :: 0 <= i < |ts| ==> ts[i].seconds == SecondsLabelled(kept, rank, ts[i].category))
      && (forall c :: c in CategoryNames(ts) <==> exists u :: u in kept && ClassifyApp(rank, u.app) == Some(c))
      && SumTotals(ts) == SecondsOf(kept)
      && ((forall i :: 0 <= i < |kept| ==> kept[i].duration >= 0) ==> forall i :: 0 <= i < |ts| ==> ts[i].seconds >= 0)
  {
    var rows := Categorise(kept, categories);
    forall c ensures CategoryTotal(rows, c) == SecondsLabelled(kept, rank, c) {
      CategoriseTotals(kept, categories, rank, c);
    }
    CategoriseTotals(kept, categories, rank, "");
    CategorisedColumn(kept, categories, rank);
    CategoryTotalsCorrect(rows);
  }

  /** Every kept row started inside the window, lasts until `now`, and is not ignored. */
  lemma {:induction false} KeptRowsInWindow(ps: seq<RawProcess>, now: int)
    ensures forall i :: 0 <= i < |KeptRows(ps, now)| ==>
      var u := KeptRows(ps, now)[i];
      u.start >= Cutoff(now) && u.duration == now - u.start && !IsIgnored(u.app)
  {
    var kept := KeptRows(ps, now);
    DropIgnoredKeeps(CollectRows(ps, now));
    forall i | 0 <= i < |kept| ensures kept[i].start >= Cutoff(now) && kept[i].duration == now - kept[i].start {
      assert kept[i] in kept;
    }
  }

  /** No kept app is on the ignore list. */
  lemma {:induction false} KeptAppsNotIgnored(ps: seq<RawProcess>, now: int)
    ensures forall app :: app in AppColumn(KeptRows(ps, now)) ==> !IsIgnored(app)
  {
    var kept := KeptRows(ps, now);
    forall app | app in AppColumn(kept) ensures !IsIgnored(app) {
      var i :| 0 <= i < |kept| && AppColumn(kept)[i] == app;
    }
  }

  /**
   * The per-category lines of a report: non-increasing, one per category
   * some kept app is ranked into and no other, each the seconds of the kept
   * rows whose app is ranked into it, together all kept seconds; none is
   * negative when no kept process started after `now`.
   */
  lemma {:induction false} ReportTotals(ps: seq<RawProcess>, now: int, rank: Ranker)
    requires Completes(ps, now, rank)
    ensures Analyze(ps, now, rank).Done?
    ensures var ts := Analyze(ps, now, rank).report.categoryTotals;
      var kept := KeptRows(ps, now);
      && SortedDescending(ts)
      && DistinctCategories(ts)
      && (forall i :: 0 <= i < |ts| ==> ts[i].seconds == SecondsLabelled(kept, rank, ts[i].category))
      && (forall c :: c in CategoryNames(ts) <==> exists u :: u in kept && ClassifyApp(rank, u.app) == Some(c))
      && SumTotals(ts) == SecondsOf(kept)
      && ((forall i :: 0 <= i < |kept| ==> kept[i].start <= now) ==> forall i :: 0 <= i < |ts| ==> ts[i].seconds >= 0)
  {
    var kept := KeptRows(ps, now);
    var categories := ReportOfKept(ps, now, rank);
    var rows := Categorise(kept, categories);
    assert Analyze(ps, now, rank).report.categoryTotals == CategoryTotals(rows);
    assert forall i :: 0 <= i < |kept| ==> kept[i].duration == now - kept[i].start by {
      KeptRowsInWindow(ps, now);
    }
    CategorisedTotals(kept, categories, rank);
  }

  /** The screen time of the analysed rows is the longest kept duration. */
  lemma {:induction false} CategorisedScreenTime(kept: seq<Usage>, categories: map<string, string>, now: int)
    requires |kept| > 0
    requires forall i :: 0 <= i < |kept| ==> kept[i].app in categories
    requires forall i :: 0 <= i < |kept| ==> kept[i].duration == now - kept[i].start
    ensures var t := TotalScreenTime(Categorise(kept, categories), now);
      && (forall i :: 0 <= i < |kept| ==> t >= kept[i].duration)
      && (exists i :: 0 <= i < |kept| && t == kept[i].duration)
  {
    var rows := Categorise(kept, categories);
    ScreenTimeIsLongestDuration(rows, now);
    var i :| 0 <= i < |rows| && TotalScreenTime(rows, now) == rows[i].duration;
    assert kept[i].duration == rows[i].duration;
  }

  /**
   * The screen time of a report is the longest kept duration: at least
   * every kept row's duration and equal to one of them.
   */
  lemma {:induction false} ReportScreenTime(ps: seq<RawProcess>, now: int, rank: Ranker)
    requires Completes(ps, now, rank)
    ensures Analyze(ps, now, rank).Done?
    ensures var kept := KeptRows(ps, now);
      var t := Analyze(ps, now, rank).report.screenTime;
      && (forall i :: 0 <= i < |kept| ==> t >= kept[i].duration)
      && (exists i :: 0 <= i < |kept| && t == kept[i].duration)
  {
    var kept := KeptRows(ps, now);
    var categories := ReportOfKept(ps, now, rank);
    var rows := Categorise(kept, categories);
    assert Analyze(ps, now, rank).report.screenTime == TotalScreenTime(rows, now);
    assert forall i :: 0 <= i < |kept| ==> kept[i].duration == now - kept[i].start by {
      KeptRowsInWindow(ps, now);
    }
    CategorisedScreenTime(kept, categories, now);
  }

  /** Seconds of the kept rows whose apps are ranked first into games or browsing. */
  function LeisureSeconds(rows: seq<Usage>, rank: Ranker): int {
    SecondsLabelled(rows, rank, Games) + SecondsLabelled(rows, rank, Browsing)
  }

  /** The books figure of the analysed rows, stated over the kept rows and the classifier. */
  lemma {:induction false} CategorisedBooks(kept: seq<Usage>, categories: map<string, string>, rank: Ranker)
    requires LabelledByRank(kept, categories, rank)
    ensures BooksRead(CategoryTotals(Categorise(kept, categories)))
         == Books(LeisureSeconds(kept, rank))
  {
    var rows := Categorise(kept, categories);
    CategoriseTotals(kept, categories, rank, Games);
    CategoriseTotals(kept, categories, rank, Browsing);
    LookupIsCategoryTotal(rows, Games);
    LookupIsCategoryTotal(rows, Browsing);
    BooksReadOf(CategoryTotals(rows), SecondsLabelled(kept, rank, Games), SecondsLabelled(kept, rank, Browsing));
    assert SecondsLabelled(kept, rank, Games) + SecondsLabelled(kept, rank, Browsing) == LeisureSeconds(kept, rank);
  }

  /** The books figure: hours ranked into games and browsing, over ten; a category nobody is ranked into adds 0. */
  lemma {:induction false} ReportBooks(ps: seq<RawProcess>, now: int, rank: Ranker)
    requires Completes(ps, now, rank)
    ensures Analyze(ps, now, rank).Done?
    ensures var kept := KeptRows(ps, now);
      Analyze(ps, now, rank).report.booksRead
        == Books(LeisureSeconds(kept, rank))
  {
    var kept := KeptRows(ps, now);
    var categories := ReportOfKept(ps, now, rank);
    assert Analyze(ps, now, rank).report.booksRead == BooksRead(CategoryTotals(Categorise(kept, categories)));
    CategorisedBooks(kept, categories, rank);
  }

  /** One (category, app) cell of the analysed rows: the app's own label, with all its seconds. */
  lemma {:induction false} CategorisedCell(kept: seq<Usage>, categories: map<string, string>, rank: Ranker, c: string, app: string)
    requires LabelledByRank(kept, categories, rank)
    requires (c, app) in AppBreakdown(Categorise(kept, categories))
    ensures ClassifyApp(rank, app) == Some(c) && app in AppColumn(kept)
    ensures AppBreakdown(Categorise(kept, categories))[(c, app)] == SecondsOfApp(kept, app)
  {
    var rows := Categorise(kept, categories);
    var i :| 0 <= i < |rows| && rows[i].category == c && rows[i].app == app;
    assert AppColumn(kept)[i] == app;
    assert categories[app] == c;
    assert forall j :: 0 <= j < |rows| && rows[j].app == app ==> rows[j].category == c;
    PairTotalIsAppTotal(rows, c, app);
    AppTotalOfCategorised(kept, categories, app);
  }

  /** The (category, app) cells of the analysed rows: each app under its own label, with all its seconds. */
  lemma {:induction false} CategorisedBreakdown(kept: seq<Usage>, categories: map<string, string>, rank: Ranker)
    requires LabelledByRank(kept, categories, rank)
    ensures var m := AppBreakdown(Categorise(kept, categories));
      forall c, app :: (c, app) in m ==>
        ClassifyApp(rank, app) == Some(c) && app in AppColumn(kept) && m[(c, app)] == SecondsOfApp(kept, app)
  {
    var m := AppBreakdown(Categorise(kept, categories));
    forall c, app | (c, app) in m
      ensures ClassifyApp(rank, app) == Some(c) && app in AppColumn(kept) && m[(c, app)] == SecondsOfApp(kept, app)
    {
      CategorisedCell(kept, categories, rank, c, app);
    }
  }

  /** Every kept app has a cell in the breakdown of the analysed rows. */
  lemma {:induction false} EveryAppHasCell(kept: seq<Usage>, categories: map<string, string>)
    requires forall i :: 0 <= i < |kept| ==> kept[i].app in categories
    ensures forall i :: 0 <= i < |kept| ==> (categories[kept[i].app], kept[i].app) in AppBreakdown(Categorise(kept, categories))
  {
    var rows := Categorise(kept, categories);
    forall i | 0 <= i < |kept| ensures (categories[kept[i].app], kept[i].app) in AppBreakdown(rows) {
      RowHasCell(rows, i);
    }
  }

  /**
   * The (category, app) cells of a report: each is a kept, non-ignored app
   * under its own top-ranked label, so no app is split across categories,
   * holding all the kept seconds of that app.
   */
  lemma {:induction false} ReportBreakdown(ps: seq<RawProcess>, now: int, rank: Ranker)
    requires Completes(ps, now, rank)
    ensures Analyze(ps, now, rank).Done?
    ensures var m := Analyze(ps, now, rank).report.appBreakdown;
      forall c, app :: (c, app) in m ==>
        ClassifyApp(rank, app) == Some(c) && !IsIgnored(app) && m[(c, app)] == SecondsOfApp(KeptRows(ps, now), app)
  {
    var kept := KeptRows(ps, now);
    var categories := ReportOfKept(ps, now, rank);
    assert Analyze(ps, now, rank).report.appBreakdown == AppBreakdown(Categorise(kept, categories));
    KeptAppsNotIgnored(ps, now);
    CategorisedBreakdown(kept, categories, rank);
  }

  /** Every kept app has a cell in the report, under its top-ranked label. */
  lemma {:induction false} ReportCoversKeptApps(ps: seq<RawProcess>, now: int, rank: Ranker)
    requires Completes(ps, now, rank)
    ensures Analyze(ps, now, rank).Done?
    ensures var kept := KeptRows(ps, now);
      forall i :: 0 <= i < |kept| ==>
        ClassifyApp(rank, kept[i].app).Some?
        && (ClassifyApp(rank, kept[i].app).value, kept[i].app) in Analyze(ps, now, rank).report.appBreakdown
  {
    var kept := KeptRows(ps, now);
    var categories := ReportOfKept(ps, now, rank);
    assert Analyze(ps, now, rank).report.appBreakdown == AppBreakdown(Categorise(kept, categories));
    EveryAppHasCell(kept, categories);
  }

  /** The run finds no data exactly when no process yields a row. */
  lemma {:induction false} NoDataWhenNothingObserved(ps: seq<RawProcess>, now: int, rank: Ranker)
    ensures Analyze(ps, now, rank).NoData? <==> forall p :: p in ps ==> Observe(p, now).None?
  {
    var collected := CollectRows(ps, now);
    CollectedRowsAreObservations(ps, now);
    if |collected| > 0 {
      assert collected[0] in collected;
    }
  }

  /**
   * The run fails for want of rows exactly when some process yields a row
   * and every process that yields one is on the ignore list.
   */
  lemma {:induction false} AllIgnoredWhenEveryRowIgnored(ps: seq<RawProcess>, now: int, rank: Ranker)
    ensures Analyze(ps, now, rank) == Failed(AllRowsIgnored)
       <==> ((exists p :: p in ps && Observe(p, now).Some?)
             && (forall p :: p in ps && Observe(p, now).Some? ==> IsIgnored(p.name)))
  {
    var collected := CollectRows(ps, now);
    var kept := KeptRows(ps, now);
    CollectedRowsAreObservations(ps, now);
    DropIgnoredKeeps(collected);
    NoDataWhenNothingObserved(ps, now, rank);
    if |kept| > 0 {
      assert kept[0] in kept;
      var p :| p in ps && Observe(p, now) == Some(kept[0]);
      assert !IsIgnored(p.name);
    }
    if |kept| == 0 {
      forall p | p in ps && Observe(p, now).Some? ensures IsIgnored(p.name) {
        assert Observe(p, now).value in collected;
      }
    }
  }

  /**
   * A run fails on a ranking exactly when some row survives the ignore list
   * and some kept app gets no label.
   */
  lemma {:induction false} RankingFailure(ps: seq<RawProcess>, now: int, rank: Ranker)
    ensures var r := Analyze(ps, now, rank);
      (r.Failed? && r.failure.EmptyRanking?)
        <==> (|KeptRows(ps, now)| > 0 && exists u :: u in KeptRows(ps, now) && |rank(u.app)| == 0)
  {
    DoneExactlyWhenCompletes(ps, now, rank);
    AllIgnoredWhenEveryRowIgnored(ps, now, rank);
    NoDataWhenNothingObserved(ps, now, rank);
    var collected := CollectRows(ps, now);
    if |collected| == 0 {
      assert KeptRows(ps, now) == [];
    }
  }

  /** The app a run fails on is a kept, non-ignored app whose ranking is empty. */
  lemma {:induction false} RankingFailureNamesKeptApp(ps: seq<RawProcess>, now: int, rank: Ranker)
    ensures var r := Analyze(ps, now, rank);
      r.Failed? && r.failure.EmptyRanking? ==>
        |rank(r.failure.app)| == 0 && !IsIgnored(r.failure.app)
        && exists u :: u in KeptRows(ps, now) && u.app == r.failure.app
  {
    var kept := KeptRows(ps, now);
    var r := Analyze(ps, now, rank);
    if r.Failed? && r.failure.EmptyRanking? {
      var a := r.failure.app;
      assert |CollectRows(ps, now)| > 0 && r == AnalyzeKept(kept, now, rank);
      assert a in Unique(AppColumn(kept));
      KeptAppsNotIgnored(ps, now);
      var i :| 0 <= i < |kept| && AppColumn(kept)[i] == a;
      assert kept[i] in kept;
    }
  }

  /**
   * With a classifier that behaves as the zero-shot pipeline (every ranking
   * lists each candidate label once), a run never fails on a ranking: it
   * reports exactly when some row survives the ignore list.
   */
  lemma {:induction false} ZeroShotNeverFailsOnRanking(ps: seq<RawProcess>, now: int, rank: Ranker)
    requires forall app :: IsRanking(rank(app))
    ensures Analyze(ps, now, rank).Done? <==> |KeptRows(ps, now)| > 0
    ensures !(Analyze(ps, now, rank).Failed? && Analyze(ps, now, rank).failure.EmptyRanking?)
  {
    DoneExactlyWhenCompletes(ps, now, rank);
    RankingFailure(ps, now, rank);
    forall app ensures |rank(app)| > 0 {
      RankingGivesCandidate(rank, app);
    }
  }

  /** With a zero-shot classifier, every reported category is one of the candidate labels. */
  lemma {:induction false} ZeroShotCategoriesArePossibleLabels(ps: seq<RawProcess>, now: int, rank: Ranker)
    requires forall app :: IsRanking(rank(app))
    requires |KeptRows(ps, now)| > 0
    ensures Analyze(ps, now, rank).Done?
    ensures forall c :: c in CategoryNames(Analyze(ps, now, rank).report.categoryTotals) ==> c in PossibleLabels
  {
    var kept := KeptRows(ps, now);
    assert Completes(ps, now, rank) by {
      forall u | u in kept ensures |rank(u.app)| > 0 {
        RankingGivesCandidate(rank, u.app);
      }
    }
    var ts := Analyze(ps, now, rank).report.categoryTotals by {
      DoneExactlyWhenCompletes(ps, now, rank);
    }
    ReportTotals(ps, now, rank);
    forall c | c in CategoryNames(ts) ensures c in PossibleLabels {
      var u :| u in kept && ClassifyApp(rank, u.app) == Some(c);
      RankingGivesCandidate(rank, u.app);
    }
  }
}
