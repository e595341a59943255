/**
 * Query answering over a snapshot of the application cache: frequency ranking for the
 * empty query, fuzzy matching plus usage bonuses otherwise, then a descending sort by
 * score and truncation to the first 100 results.
 */
module Search {
  import opened Wrappers
  import opened Launcher
  import opened Sequences

  /** The literal cap of `results.truncate(100)`. */
  const MAX_RESULTS: nat := 100

  datatype SearchResult = SearchResult(app: AppEntry, score: int)

  /** The fuzzy matcher's `fuzzy_match(choice, pattern)`: a score when `pattern` matches
      `choice`, None otherwise. */
  type Matcher = (string, string) -> Option<int>

  // ---------------------------------------------------------------------------
  // Scores

  /** Score of an entry for the empty query: launches, then having an icon. */
  function EmptyQueryScore(app: AppEntry): int {
    (if app.launchCount > 0 then app.launchCount * 100 + 1000 else 0)
    + (if app.iconName != GENERIC_ICON then 500 else 0)
  }

  /** Score of an entry the matcher scored `fuzzy` for a non-empty query. */
  function FuzzyScore(app: AppEntry, fuzzy: int): int {
    fuzzy
    + (if app.launchCount > 0 then app.launchCount * 50 + 500 else 0)
    + (if app.iconName != GENERIC_ICON then 250 else 0)
  }

  /** More launches never lower a score, in either mode; every extra launch raises it. */
  lemma ScoresIncreaseWithLaunches(app: AppEntry, fewer: U32, more: U32, fuzzy: int)
    requires fewer < more
    ensures EmptyQueryScore(app.(launchCount := fewer)) < EmptyQueryScore(app.(launchCount := more))
    ensures FuzzyScore(app.(launchCount := fewer), fuzzy) < FuzzyScore(app.(launchCount := more), fuzzy)
  {
  }

  /** For two entries that differ only in launch count and both match with the same
      fuzzy score, the more launched one scores higher. */
  lemma MoreLaunchedRanksHigher(a: AppEntry, b: AppEntry, fuzzy: int)
    requires a.iconName == b.iconName && a.launchCount > b.launchCount
    ensures FuzzyScore(a, fuzzy) > FuzzyScore(b, fuzzy)
    ensures EmptyQueryScore(a) > EmptyQueryScore(b)
  {
    ScoresIncreaseWithLaunches(a, b.launchCount, a.launchCount, fuzzy);
    assert a.(launchCount := a.launchCount) == a;
  }

  // ---------------------------------------------------------------------------
  // The candidates before sorting

  /** The empty-query candidates: every entry, scored by `EmptyQueryScore`. */
  function ScoreAll(apps: seq<AppEntry>): (r: seq<SearchResult>)
    ensures |r| == |apps|
    ensures forall k :: 0 <= k < |r| ==> r[k].app == apps[k] && r[k].score == EmptyQueryScore(apps[k])
  {
    seq(|apps|, k requires 0 <= k < |apps| => SearchResult(apps[k], EmptyQueryScore(apps[k])))
  }

  /** The fuzzy-mode candidates: the entries whose name the matcher accepts for the query,
      in order, each scored by `FuzzyScore`. */
  function MatchAll(apps: seq<AppEntry>, query: string, matcher: Matcher): (r: seq<SearchResult>)
    ensures |r| <= |apps|
    ensures forall x :: x in r ==> x.app in apps && matcher(x.app.name, query).Some?
                                   && x.score == FuzzyScore(x.app, matcher(x.app.name, query).value)
  {
    if apps == [] then []
    else
      var rest := MatchAll(apps[1..], query, matcher);
      assert forall a :: a in apps[1..] ==> a in apps;
      match matcher(apps[0].name, query)
      case Some(s) => [SearchResult(apps[0], FuzzyScore(apps[0], s))] + rest
      case None => rest
  }

  /** The candidates of either mode: the empty query ranks by frequency, any other by
      fuzzy match. */
  function Candidates(apps: seq<AppEntry>, query: string, matcher: Matcher): seq<SearchResult> {
    if query == "" then ScoreAll(apps) else MatchAll(apps, query, matcher)
  }

  function AppOf(r: SearchResult): AppEntry {
    r.app
  }

  /** The entries of a list of results, in order. */
  function Apps(rs: seq<SearchResult>): seq<AppEntry> {
    Project(rs, AppOf)
  }

  /** The empty-query candidates are the entries themselves, in order. */
  lemma {:induction false} ScoreAllApps(apps: seq<AppEntry>)
    ensures Apps(ScoreAll(apps)) == apps
  {
    if apps != [] {
      ScoreAllApps(apps[1..]);
      assert ScoreAll(apps)[1..] == ScoreAll(apps[1..]);
    }
  }

  /** Fuzzy mode drops exactly the entries the matcher rejects: every accepted entry has
      a candidate. */
  lemma {:induction false} MatchAllComplete(apps: seq<AppEntry>, query: string, matcher: Matcher, i: nat)
    requires i < |apps| && matcher(apps[i].name, query).Some?
    ensures SearchResult(apps[i], FuzzyScore(apps[i], matcher(apps[i].name, query).value))
            in MatchAll(apps, query, matcher)
  {
    if i > 0 {
      MatchAllComplete(apps[1..], query, matcher, i - 1);
    }
  }

  /** The fuzzy candidates' entries are a sub-multiset of the entries searched. */
  lemma {:induction false} MatchAllSubMultiset(apps: seq<AppEntry>, query: string, matcher: Matcher)
    ensures multiset(Apps(MatchAll(apps, query, matcher))) <= multiset(apps)
  {
    if apps != [] {
      var tail := apps[1..];
      MatchAllSubMultiset(tail, query, matcher);
      var rest := MatchAll(tail, query, matcher);
      assert apps == [apps[0]] + tail;
      assert multiset(apps) == multiset{apps[0]} + multiset(tail);
      match matcher(apps[0].name, query)
      case Some(sc) =>
        var x := SearchResult(apps[0], FuzzyScore(apps[0], sc));
        assert MatchAll(apps, query, matcher) == [x] + rest;
        assert ([x] + rest)[1..] == rest;
        assert Apps([x] + rest) == [apps[0]] + Apps(rest);
      case None =>
        assert MatchAll(apps, query, matcher) == rest;
    }
  }

  // ---------------------------------------------------------------------------
  // Sorting and truncation

  /** Non-increasing by score. */
  predicate SortedByScore(rs: seq<SearchResult>) {
    forall i, j :: 0 <= i < j < |rs| ==> rs[i].score >= rs[j].score
  }

  /**
   * `par_sort_unstable_by(|a, b| b.score.cmp(&a.score))`: sorts in place, highest score
   * first. No order among equal scores is promised.
   */
  method SortByScore(a: array<SearchResult>)
    modifies a
    ensures SortedByScore(a[..])
    ensures multiset(a[..]) == multiset(old(a[..]))
  {
    if a.Length == 0 {
      return;
    }
    var i := 1;
    while i < a.Length
      invariant 1 <= i <= a.Length
      invariant SortedByScore(a[..i])
      invariant multiset(a[..]) == multiset(old(a[..]))
    {
      InsertLast(a, i);
      i := i + 1;
    }
  }

  /** One insertion step: moves `a[i]` left past every lower score, keeping `a[..i+1]`
      a permutation of itself. */
  method InsertLast(a: array<SearchResult>, i: nat)
    requires i < a.Length
    requires SortedByScore(a[..i])
    modifies a
    ensures SortedByScore(a[..i + 1])
    ensures multiset(a[..]) == multiset(old(a[..]))
  {
    var j := i;
    while j > 0 && a[j - 1].score < a[j].score
      invariant 0 <= j <= i
      invariant forall p, q :: 0 <= p < q <= i && p != j && q != j ==> a[p].score >= a[q].score
      invariant forall q :: j < q <= i ==> a[j].score >= a[q].score
      invariant 0 < j < i ==> a[j - 1].score >= a[j + 1].score
      invariant multiset(a[..]) == multiset(old(a[..]))
    {
      Swap(a, j - 1, j);
      j := j - 1;
    }
  }

  method Swap(a: array<SearchResult>, i: nat, j: nat)
    requires i < j < a.Length
    modifies a
    ensures a[..] == old(a[..])[i := old(a[j])][j := old(a[i])]
    ensures multiset(a[..]) == multiset(old(a[..]))
  {
    a[i], a[j] := a[j], a[i];
  }

  /** A prefix of a sorted permutation holds the top scores: everything left out scores no
      higher than anything kept. */
  lemma TopOfSorted(sorted: seq<SearchResult>, k: nat)
    requires SortedByScore(sorted) && k <= |sorted|
    ensures multiset(sorted[..k]) <= multiset(sorted)
    ensures forall x, y :: x in multiset(sorted) - multiset(sorted[..k]) && y in sorted[..k] ==>
      x.score <= y.score
  {
    assert sorted == sorted[..k] + sorted[k..];
    assert multiset(sorted) == multiset(sorted[..k]) + multiset(sorted[k..]);
    forall x, y | x in multiset(sorted) - multiset(sorted[..k]) && y in sorted[..k]
      ensures x.score <= y.score
    {
      assert x in multiset(sorted[k..]);
      assert x in sorted[k..];
      var q :| k <= q < |sorted| && sorted[q] == x;
      var p :| 0 <= p < k && sorted[p] == y;
    }
  }

  // ---------------------------------------------------------------------------
  // The search

  /** `order` lists the cache's keys once each: the iteration order of the hash map. */
  predicate Enumerates(order: seq<string>, cache: map<string, AppEntry>) {
    (forall k :: k in order ==> k in cache)
    && (forall k :: k in cache ==> k in order)
    && (forall i, j :: 0 <= i < j < |order| ==> order[i] != order[j])
  }

  function Values(order: seq<string>, cache: map<string, AppEntry>): (r: seq<AppEntry>)
    requires forall k :: k in order ==> k in cache
    ensures |r| == |order| && forall i :: 0 <= i < |order| ==> r[i] == cache[order[i]]
  {
    seq(|order|, i requires 0 <= i < |order| => cache[order[i]])
  }

  lemma ValuesInCache(order: seq<string>, cache: map<string, AppEntry>)
    requires forall k :: k in order ==> k in cache
    ensures forall a :: a in Values(order, cache) ==> a in cache.Values
  {
    forall a | a in Values(order, cache) ensures a in cache.Values {
      var k :| 0 <= k < |order| && Values(order, cache)[k] == a;
      assert cache[order[k]] == a;
    }
  }

  /** A repetition-free listing of the keys has as many elements as the map. */
  lemma {:induction false} EnumerationSize(order: seq<string>, cache: map<string, AppEntry>)
    requires Enumerates(order, cache)
    ensures |order| == |cache|
  {
    var keys := set k | k in order;
    assert keys == cache.Keys;
    DistinctCard(order);
  }

  lemma {:induction false} DistinctCard(s: seq<string>)
    requires forall i, j :: 0 <= i < j < |s| ==> s[i] != s[j]
    ensures |set k | k in s| == |s|
  {
    if s != [] {
      var t := s[1..];
      DistinctCard(t);
      assert (set k | k in s) == (set k | k in t) + {s[0]};
      assert s[0] !in (set k | k in t);
    }
  }

  /** The result is scored as the query's mode prescribes: by frequency for the empty
      query, by fuzzy score plus bonuses for an entry the matcher accepts otherwise. */
  predicate ScoredAsMode(r: SearchResult, query: string, matcher: Matcher) {
    if query == "" then r.score == EmptyQueryScore(r.app)
    else matcher(r.app.name, query).Some? && r.score == FuzzyScore(r.app, matcher(r.app.name, query).value)
  }

  /** Facts every candidate carries: it is one of the searched entries, scored as its
      mode prescribes. */
  lemma CandidateFacts(apps: seq<AppEntry>, query: string, matcher: Matcher)
    ensures forall x :: x in Candidates(apps, query, matcher) ==>
      x.app in apps && ScoredAsMode(x, query, matcher)
  {
    if query == "" {
      forall x | x in ScoreAll(apps) ensures x.app in apps && x.score == EmptyQueryScore(x.app) {
        var k :| 0 <= k < |apps| && ScoreAll(apps)[k] == x;
      }
    }
  }

  /** The entries of the candidates are a sub-multiset of the entries searched. */
  lemma CandidateApps(apps: seq<AppEntry>, query: string, matcher: Matcher)
    ensures multiset(Apps(Candidates(apps, query, matcher))) <= multiset(apps)
  {
    if query == "" {
      ScoreAllApps(apps);
    } else {
      MatchAllSubMultiset(apps, query, matcher);
    }
  }

  /** What truncating a sorted permutation of the candidates to `n` gives. */
  lemma TruncatedTop(cands: seq<SearchResult>, sorted: seq<SearchResult>, n: nat)
    requires multiset(sorted) == multiset(cands) && SortedByScore(sorted) && n <= |sorted|
    ensures SortedByScore(sorted[..n])
    ensures multiset(sorted[..n]) <= multiset(cands)
    ensures forall x, y :: x in multiset(cands) - multiset(sorted[..n]) && y in sorted[..n] ==> x.score <= y.score
    ensures forall r :: r in sorted[..n] ==> r in cands
    ensures multiset(Apps(sorted[..n])) <= multiset(Apps(cands))
  {
    TopOfSorted(sorted, n);
    forall r | r in sorted[..n] ensures r in cands {
      assert r in multiset(sorted[..n]);
    }
    ProjectMonotone(sorted[..n], cands, AppOf);
  }

  /**
   * `search_applications` on a snapshot of the cache. `order` is the cache's iteration
   * order and `matcher` the fuzzy matcher.
   */
  method SearchApplications(query: string, cache: map<string, AppEntry>, order: seq<string>,
                            matcher: Matcher) returns (results: seq<SearchResult>)
    requires Enumerates(order, cache)
    ensures var cands := Candidates(Values(order, cache), query, matcher);
      && |results| == (if |cands| < MAX_RESULTS then |cands| else MAX_RESULTS)
      && SortedByScore(results)
      && multiset(results) <= multiset(cands)
      && (forall x, y :: x in multiset(cands) - multiset(results) && y in results ==> x.score <= y.score)
    ensures query == "" ==> |results| == (if |cache| < MAX_RESULTS then |cache| else MAX_RESULTS)
    ensures multiset(Apps(results)) <= multiset(Values(order, cache))
    ensures forall r :: r in results ==> r.app in cache.Values
    ensures forall r :: r in results ==> ScoredAsMode(r, query, matcher)
  {
    var apps := Values(order, cache);
    var cands := Candidates(apps, query, matcher);
    var buffer := new SearchResult[|cands|](k requires 0 <= k < |cands| => cands[k]);
    assert buffer[..] == cands;
    SortByScore(buffer);
    var n := if buffer.Length < MAX_RESULTS then buffer.Length else MAX_RESULTS;
    results := buffer[..n];

    TruncatedTop(cands, buffer[..], n);
    assert buffer[..][..n] == results;
    EnumerationSize(order, cache);
    CandidateFacts(apps, query, matcher);
    CandidateApps(apps, query, matcher);
    ValuesInCache(order, cache);
  }
}
