/**
 Ordering of the repository cards (JS/torres-github-api.js,
 `displayRepositories`): each repository is enriched with the number of
 languages GitHub reports for it, then sorted with homepage first, more
 languages first, most recently updated first.
 */
module RepoRanking {
  import opened JsValues
  import opened Sorting
  import opened Languages

  /** The fields of a repository summary the ranking and the browser read. */
  datatype Repo = Repo(
    id: int,
    name: string,
    url: string,
    homepage: Option<string>,
    updatedAt: int,       // `updated_at` as a timestamp
    language: Option<string>)

  /** `{ ...repo, languageCount }`. */
  datatype RankedRepo = RankedRepo(repo: Repo, languageCount: nat)

  /**
   The number of keys of the language map: its distinct names, never more than
   its entries, at least one for a non-empty map, and zero when the fetch failed.
   */
  function LanguageCount(fetch: LanguagesFetch): (n: nat)
    ensures fetch.LanguagesFailed? ==> n == 0
    ensures fetch.LanguagesOk? ==> n <= |fetch.entries|
    ensures fetch.LanguagesOk? ==> (n == 0 <==> |fetch.entries| == 0)
    ensures fetch.LanguagesOk? && DistinctNames(fetch.entries) ==> n == |fetch.entries|
  {
    match fetch
    case LanguagesFailed => 0
    case LanguagesOk(entries) =>
      NamesAtMost(entries);
      assert DistinctNames(entries) ==> |Names(entries)| == |entries| by {
        if DistinctNames(entries) {
          NamesDistinct(entries);
        }
      }
      assert |entries| > 0 ==> entries[0].name in Names(entries);
      |Names(entries)|
  }

  function Names(entries: seq<LangEntry>): set<string> {
    set e | e in entries :: e.name
  }

  /** The keys of a non-empty reply are its first key and the keys of the rest. */
  lemma NamesCons(entries: seq<LangEntry>)
    requires |entries| > 0
    ensures Names(entries) == {entries[0].name} + Names(entries[1..])
  {
    forall x | x in Names(entries) ensures x in {entries[0].name} + Names(entries[1..]) {
      var e :| e in entries && e.name == x;
      if e != entries[0] {
        assert e in entries[1..];
      }
    }
    forall x | x in Names(entries[1..]) ensures x in Names(entries) {
      var e :| e in entries[1..] && e.name == x;
      assert e in entries;
    }
  }

  lemma {:induction false} NamesAtMost(entries: seq<LangEntry>)
    ensures |Names(entries)| <= |entries|
    decreases |entries|
  {
    if |entries| > 0 {
      NamesAtMost(entries[1..]);
      NamesCons(entries);
    }
  }

  /** No key occurs twice, as in the map the languages endpoint answers with. */
  predicate DistinctNames(entries: seq<LangEntry>) {
    forall i, j :: 0 <= i < j < |entries| ==> entries[i].name != entries[j].name
  }

  lemma {:induction false} NamesDistinct(entries: seq<LangEntry>)
    requires DistinctNames(entries)
    ensures |Names(entries)| == |entries|
    decreases |entries|
  {
    if |entries| > 0 {
      assert DistinctNames(entries[1..]) by {
        forall i, j | 0 <= i < j < |entries[1..]| ensures entries[1..][i].name != entries[1..][j].name {
          assert entries[1..][i] == entries[i + 1] && entries[1..][j] == entries[j + 1];
        }
      }
      NamesDistinct(entries[1..]);
      NamesCons(entries);
      assert entries[0].name !in Names(entries[1..]) by {
        forall e | e in entries[1..] ensures e.name != entries[0].name {
          var j :| 0 <= j < |entries[1..]| && entries[1..][j] == e;
          assert entries[j + 1] == e;
        }
      }
    }
  }

  /** Pairs every repository with the language count of its own fetch, keeping the listing order. */
  function Enrich(repos: seq<Repo>, fetches: seq<LanguagesFetch>): (r: seq<RankedRepo>)
    requires |fetches| == |repos|
    ensures |r| == |repos|
    ensures forall i :: 0 <= i < |r| ==> r[i].repo == repos[i] && r[i].languageCount == LanguageCount(fetches[i])
  {
    if |repos| == 0 then []
    else [RankedRepo(repos[0], LanguageCount(fetches[0]))] + Enrich(repos[1..], fetches[1..])
  }

  predicate HasHomepage(r: RankedRepo) {
    Truthy(r.repo.homepage)
  }

  /**
   The comparator of `displayRepositories`: zero exactly when the two tie on
   all three keys, and its sign flips when the arguments are swapped.
   */
  function CompareRepos(a: RankedRepo, b: RankedRepo): (c: int)
    ensures c == 0 <==>
              (HasHomepage(a) == HasHomepage(b) && a.languageCount == b.languageCount
               && a.repo.updatedAt == b.repo.updatedAt)
    ensures c < 0 <==> (HasHomepage(a) && !HasHomepage(b))
                       || (HasHomepage(a) == HasHomepage(b) && a.languageCount > b.languageCount)
                       || (HasHomepage(a) == HasHomepage(b) && a.languageCount == b.languageCount
                           && a.repo.updatedAt > b.repo.updatedAt)
  {
    var aHas := if HasHomepage(a) then 1 else 0;
    var bHas := if HasHomepage(b) then 1 else 0;
    if aHas != bHas then bHas - aHas
    else if b.languageCount - a.languageCount != 0 then b.languageCount - a.languageCount
    else b.repo.updatedAt - a.repo.updatedAt
  }

  /** The three keys form a consistent comparator, so the sort is well defined. */
  lemma CompareReposIsComparator()
    ensures IsComparator(CompareRepos)
  {
  }

  /** `a` may precede `b`: the three keys, each deciding only on a tie of the previous one. */
  predicate RankedBefore(a: RankedRepo, b: RankedRepo) {
    || (HasHomepage(a) && !HasHomepage(b))
    || (HasHomepage(a) == HasHomepage(b) && a.languageCount > b.languageCount)
    || (HasHomepage(a) == HasHomepage(b) && a.languageCount == b.languageCount
        && a.repo.updatedAt >= b.repo.updatedAt)
  }

  lemma RankedBeforeIffNotAfter(a: RankedRepo, b: RankedRepo)
    ensures RankedBefore(a, b) <==> CompareRepos(a, b) <= 0
  {
  }

  /**
   The card order: a permutation of the enriched listing in which homepages
   come first, then more languages, then later updates.
   */
  function RankRepositories(repos: seq<Repo>, fetches: seq<LanguagesFetch>): (r: seq<RankedRepo>)
    requires |fetches| == |repos|
    ensures multiset(r) == multiset(Enrich(repos, fetches))
    ensures |r| == |repos|
    ensures forall i, j :: 0 <= i < j < |r| ==> RankedBefore(r[i], r[j])
  {
    CompareReposIsComparator();
    var enriched := Enrich(repos, fetches);
    var r := Sort(enriched, CompareRepos);
    assert forall i, j :: 0 <= i < j < |r| ==> CompareRepos(r[i], r[j]) <= 0;
    r
  }

  /**
   Repositories that tie on all three keys keep the order the listing gave
   them: the cards equivalent to any `k` appear in listing order.
   */
  lemma RankingKeepsTies(repos: seq<Repo>, fetches: seq<LanguagesFetch>, k: RankedRepo)
    requires |fetches| == |repos|
    ensures Equivalents(RankRepositories(repos, fetches), k, CompareRepos)
         == Equivalents(Enrich(repos, fetches), k, CompareRepos)
  {
    CompareReposIsComparator();
    SortStable(Enrich(repos, fetches), k, CompareRepos);
  }

  /** What the repositories container shows for a successful listing. */
  datatype Listing = NoRepositories | Cards(cards: seq<RankedRepo>)

  /** `displayRepositories`: an empty listing says so; otherwise the ranked cards. */
  function DisplayRepositories(repos: seq<Repo>, fetches: seq<LanguagesFetch>): (l: Listing)
    requires |fetches| == |repos|
    ensures l.NoRepositories? <==> |repos| == 0
    ensures l.Cards? ==> l.cards == RankRepositories(repos, fetches)
  {
    if |repos| == 0 then NoRepositories else Cards(RankRepositories(repos, fetches))
  }
}
