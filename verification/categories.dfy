/**
 * Attributing apps to usage categories. The zero-shot text classifier is
 * not modelled; it is a parameter, a "ranker" that returns, for an app
 * name, candidate labels from the highest score down. The category of an
 * app is the first label of its ranking, and the analyser asks once per
 * distinct app name, in order of first appearance.
 */
module Categories {
  import opened Wrappers

  /** The browsing label. */
  const Browsing: string := "Navegador"

  /** The games label. */
  const Games: string := "Jogos"

  /** The candidate labels handed to the classifier, in the analyser's order. */
  const PossibleLabels: seq<string> :=
    [Browsing, "Comunicação", Games, "Produtividade", "Entretenimento", "Outros"]

  /** The classifier: for a text and the fixed candidate labels, the labels ranked best first. */
  type Ranker = string -> seq<string>

  /** What the zero-shot pipeline returns: every candidate label once, in some order. */
  predicate IsRanking(labels: seq<string>) {
    multiset(labels) == multiset(PossibleLabels)
  }

  /**
   * The category of one app: the best-ranked label. An empty ranking is
   * an index error in the analyser, so there is no category then.
   */
  function ClassifyApp(rank: Ranker, app: string): (r: Option<string>)
    ensures r.Some? <==> |rank(app)| > 0
    ensures r.Some? ==> r.value == rank(app)[0]
  {
    var labels := rank(app);
    if |labels| == 0 then None else Some(labels[0])
  }

  /** Under a zero-shot ranking every app gets a label, and it is one of the candidates. */
  lemma {:induction false} RankingGivesCandidate(rank: Ranker, app: string)
    requires IsRanking(rank(app))
    ensures ClassifyApp(rank, app).Some? && ClassifyApp(rank, app).value in PossibleLabels
  {
    var labels := rank(app);
    assert PossibleLabels[0] in multiset(PossibleLabels);
    assert labels[0] in multiset(labels);
  }

  predicate NoDuplicates<T(==)>(s: seq<T>) {
    forall i, j :: 0 <= i < j < |s| ==> s[i] != s[j]
  }

  /** The position of the first occurrence of `x` in `s`. */
  function FirstIndex(s: seq<string>, x: string): (k: nat)
    requires x in s
    ensures k < |s| && s[k] == x && x !in s[..k]
  {
    if s[0] == x then 0
    else
      var k := 1 + FirstIndex(s[1..], x);
      assert s[..k] == [s[0]] + s[1..][..k - 1];
      k
  }

  /** In a prefix, an element's first occurrence is where it is in the whole sequence. */
  lemma FirstIndexOfPrefix(s: seq<string>, n: nat, x: string)
    requires n <= |s| && x in s[..n]
    ensures FirstIndex(s, x) == FirstIndex(s[..n], x)
  {
    var k := FirstIndex(s[..n], x);
    assert s[..n][..k] == s[..k];
  }

  /**
   * The distinct elements of `s` (`Series.unique()`), listed in the order of
   * their first occurrences (`UniqueKeepsFirstOccurrenceOrder`).
   */
  function Unique(s: seq<string>): (r: seq<string>)
    ensures NoDuplicates(r)
    ensures forall x :: x in r <==> x in s
    ensures |r| <= |s|
  {
    if |s| == 0 then []
    else
      var u := Unique(s[..|s| - 1]);
      assert forall x :: x in s <==> x in s[..|s| - 1] || x == s[|s| - 1];
      if s[|s| - 1] in u then u else u + [s[|s| - 1]]
  }

  /**
   * The outcome of the classification loop: every app labelled, with the
   * names handed to the classifier in call order; or the first app whose
   * ranking was empty, which ends the run.
   */
  datatype Classification =
    | Labelled(categories: map<string, string>, calls: seq<string>)
    | NoLabelFor(app: string)

  /** Classify each app in order, stopping at the first that gets no label. */
  function ClassifyAll(apps: seq<string>, rank: Ranker): (r: Classification)
    ensures r.Labelled? ==> forall a :: a in r.categories ==> a in apps
    ensures r.Labelled? ==> forall a :: a in apps ==> a in r.categories && ClassifyApp(rank, a) == Some(r.categories[a])
    ensures r.Labelled? ==> r.calls == apps
    ensures r.NoLabelFor? ==> r.app in apps && |rank(r.app)| == 0
    ensures r.NoLabelFor? ==> forall j :: 0 <= j < FirstIndex(apps, r.app) ==> |rank(apps[j])| > 0
  {
    if |apps| == 0 then Labelled(map[], [])
    else
      match ClassifyApp(rank, apps[0])
      case None => NoLabelFor(apps[0])
      case Some(c) =>
        match ClassifyAll(apps[1..], rank)
        case NoLabelFor(a) => NoLabelFor(a)
        case Labelled(categories, calls) =>
          assert forall a :: a in apps <==> a == apps[0] || a in apps[1..];
          assert apps == [apps[0]] + apps[1..];
          Labelled(categories[apps[0] := c], [apps[0]] + calls)
  }

  /** The loop stops exactly when some app's ranking is empty. */
  lemma {:induction false} ClassifyAllFailsOnlyOnEmptyRanking(apps: seq<string>, rank: Ranker)
    ensures ClassifyAll(apps, rank).Labelled? <==> forall a :: a in apps ==> |rank(a)| > 0
  {
    if |apps| > 0 {
      ClassifyAllFailsOnlyOnEmptyRanking(apps[1..], rank);
      assert forall a :: a in apps <==> a == apps[0] || a in apps[1..];
    }
  }

  /** `Series.unique()` lists the distinct elements in the order they first occur. */
  lemma {:induction false} UniqueKeepsFirstOccurrenceOrder(s: seq<string>)
    ensures forall i, j :: 0 <= i < j < |Unique(s)| ==> FirstIndex(s, Unique(s)[i]) < FirstIndex(s, Unique(s)[j])
  {
    if |s| > 0 {
      var n := |s| - 1;
      var u := Unique(s[..n]);
      UniqueKeepsFirstOccurrenceOrder(s[..n]);
      assert s == s[..n] + [s[n]];
      forall i | 0 <= i < |u| ensures u[i] in s && FirstIndex(s, u[i]) == FirstIndex(s[..n], u[i]) < n {
        FirstIndexOfPrefix(s, n, u[i]);
      }
      if s[n] !in u {
        var r := u + [s[n]];
        assert FirstIndex(s, s[n]) == n by {
          assert s[n] !in s[..n];
        }
        forall i, j | 0 <= i < j < |r| ensures FirstIndex(s, r[i]) < FirstIndex(s, r[j]) {
          assert r[i] == u[i];
          if j < |u| {
            assert r[j] == u[j];
          }
        }
      }
    }
  }
}
