/**
 The book cards of JS/palma.js: the duplicate-free random pick of up to five
 works from the fiction subject listing (`loadRandomBooks`) and the fallbacks
 for title, author and cover, there and for the fixed top picks
 (`loadTopBooks`). Random draws and search replies are inputs.
 */
module Books {
  import opened Strings
  import opened JsValues

  const MaxRandomBooks := 5
  const UnknownTitle := "Unknown Title"
  const UnknownAuthor := "Unknown Author"
  const PlaceholderCover := "https://via.placeholder.com/180x260?text=No+Cover"

  /** The Open Library large cover image for a cover id. */
  function CoverUrl(id: nat): string {
    "https://covers.openlibrary.org/b/id/" + NatToDecimal(id) + "-L.jpg"
  }

  /** A cover id is used when it is present and not zero (the truthiness of a number). */
  predicate UsableCoverId(id: Option<nat>) {
    id.Some? && id.value != 0
  }

  /** The cover for a possibly missing id: its image, else the placeholder. */
  function CoverFor(id: Option<nat>): (url: string)
    ensures UsableCoverId(id) ==> url == CoverUrl(id.value)
    ensures !UsableCoverId(id) ==> url == PlaceholderCover
  {
    if UsableCoverId(id) then CoverUrl(id.value) else PlaceholderCover
  }

  /** The placeholder shows exactly when there is no usable id, and distinct ids give distinct images. */
  lemma PlaceholderIffNoCoverId(id: Option<nat>, other: Option<nat>)
    ensures CoverFor(id) == PlaceholderCover <==> !UsableCoverId(id)
    ensures UsableCoverId(id) && UsableCoverId(other) ==> (CoverFor(id) == CoverFor(other) <==> id == other)
  {
    if UsableCoverId(id) {
      assert CoverFor(id)[8] == 'c' != PlaceholderCover[8];
      if UsableCoverId(other) && CoverFor(id) == CoverFor(other) {
        var prefix := "https://covers.openlibrary.org/b/id/";
        var a := NatToDecimal(id.value);
        var b := NatToDecimal(other.value);
        assert (prefix + a + "-L.jpg")[|prefix|..|prefix| + |a|] == a;
        assert (prefix + b + "-L.jpg")[|prefix|..|prefix| + |b|] == b;
        assert |a| == |b|;
        DecimalRoundTrip(id.value);
        DecimalRoundTrip(other.value);
      }
    }
  }

  // ---------------------------------------------------------------- random pick

  /** The distinct elements of `s`, each where it first occurs. */
  function FirstOccurrences(s: seq<nat>): (r: seq<nat>)
    ensures forall x :: x in r <==> x in s
    ensures forall i, j :: 0 <= i < j < |r| ==> r[i] != r[j]
    ensures |r| <= |s|
  {
    if |s| == 0 then []
    else
      var earlier := FirstOccurrences(s[..|s| - 1]);
      var last := s[|s| - 1];
      assert s == s[..|s| - 1] + [last];
      if last in earlier then earlier else earlier + [last]
  }

  /**
   The `while` of `loadRandomBooks` over work indices (`includes` compares the
   work objects, so equal-looking works are still different works). `draws`
   are the successive `Math.floor(Math.random() * works.length)`; the loop
   stops once it holds `min(5, n)` works or the supplied draws run out, and
   `used` tells how many draws it consumed.
   */
  method SelectRandomWorks(n: nat, draws: seq<nat>) returns (picked: seq<nat>, used: nat)
    requires forall i :: 0 <= i < |draws| ==> draws[i] < n
    ensures used <= |draws|
    ensures picked == FirstOccurrences(draws[..used])
    ensures forall i, j :: 0 <= i < j < |picked| ==> picked[i] != picked[j]
    ensures forall i :: 0 <= i < |picked| ==> picked[i] < n
    ensures |picked| <= Min(MaxRandomBooks, n)
    ensures used < |draws| ==> |picked| == Min(MaxRandomBooks, n)
    ensures n == 0 ==> picked == []
  {
    picked := [];
    used := 0;
    while |picked| < MaxRandomBooks && |picked| < n && used < |draws|
      invariant used <= |draws|
      invariant picked == FirstOccurrences(draws[..used])
      invariant forall i :: 0 <= i < |picked| ==> picked[i] < n
      invariant |picked| <= Min(MaxRandomBooks, n)
      decreases |draws| - used
    {
      var drawn := draws[used];
      assert draws[..used + 1][..used] == draws[..used];
      if drawn !in picked {
        picked := picked + [drawn];
      }
      used := used + 1;
    }
  }

  /** What a subject listing gives of one work. */
  datatype Author = Author(name: Option<string>)
  datatype Work = Work(title: Option<string>, authors: Option<seq<Author>>, coverId: Option<nat>)

  /** `book.authors?.[0]?.name`. */
  function FirstAuthorName(w: Work): Option<string> {
    if w.authors.Some? && |w.authors.value| > 0 then w.authors.value[0].name else None
  }

  /** One rendered card. */
  datatype Card = Card(cover: string, title: string, author: string)

  /** A random-pick card: each field falls back on its own when missing or empty. */
  function WorkCard(w: Work): (c: Card)
    ensures c.title == (if Truthy(w.title) then w.title.value else UnknownTitle)
    ensures c.author == (if Truthy(FirstAuthorName(w)) then FirstAuthorName(w).value else UnknownAuthor)
    ensures c.cover == CoverFor(w.coverId)
  {
    Card(CoverFor(w.coverId), OrElse(w.title, UnknownTitle), OrElse(FirstAuthorName(w), UnknownAuthor))
  }

  /** The cards of `loadRandomBooks`, one per picked work in pick order. */
  function RandomBookCards(works: seq<Work>, picked: seq<nat>): (cards: seq<Card>)
    requires forall i :: 0 <= i < |picked| ==> picked[i] < |works|
    ensures |cards| == |picked|
    ensures forall i :: 0 <= i < |cards| ==> cards[i] == WorkCard(works[picked[i]])
  {
    seq(|picked|, i requires 0 <= i < |picked| => WorkCard(works[picked[i]]))
  }

  /** A card never shows an empty title or author. */
  lemma CardFieldsNeverEmpty(w: Work)
    ensures WorkCard(w).title != "" && WorkCard(w).author != "" && WorkCard(w).cover != ""
  {
  }

  // ---------------------------------------------------------------- top picks

  /** A configured top pick; `author` may be missing or empty. */
  datatype Pick = Pick(title: string, author: Option<string>)

  const TopPicks: seq<Pick> := [
    Pick("Harry Potter and the Prisoner of Azkaban", Some("")),
    Pick("To Kill a Mockingbird", None),
    Pick("The Da Vinci Code", None),
    Pick("Angels & Demons", Some("Dan Brown")),
    Pick("Sherlock Holmes", None)
  ]

  /** The first document of a title search. */
  datatype Doc = Doc(authorNames: Option<seq<string>>, coverI: Option<nat>)

  /** A title search: its documents, or a failure (network error, unreadable reply). */
  datatype Search = SearchFailed | Docs(docs: seq<Doc>)

  /** The author is looked up only when the configured one is missing or empty. */
  predicate NeedsAuthorLookup(p: Pick) {
    !Truthy(p.author)
  }

  /** `data.docs[0].author_name?.[0]`. */
  function FirstDocAuthor(s: Search): Option<string> {
    if s.Docs? && |s.docs| > 0 && s.docs[0].authorNames.Some? && |s.docs[0].authorNames.value| > 0
    then Some(s.docs[0].authorNames.value[0])
    else None
  }

  /**
   The shown author: the configured one when set; otherwise the first author
   of the first search result, or "Unknown Author" when the search failed, was
   empty or named nobody.
   */
  function ResolveAuthor(p: Pick, lookup: Search): (author: string)
    ensures !NeedsAuthorLookup(p) ==> author == p.author.value
    ensures NeedsAuthorLookup(p) && Truthy(FirstDocAuthor(lookup)) ==> author == FirstDocAuthor(lookup).value
    ensures NeedsAuthorLookup(p) && !Truthy(FirstDocAuthor(lookup)) ==> author == UnknownAuthor
  {
    if !NeedsAuthorLookup(p) then p.author.value
    else match lookup
      case SearchFailed => UnknownAuthor
      case Docs(docs) =>
        if |docs| > 0 then OrElse(FirstDocAuthor(lookup), UnknownAuthor) else UnknownAuthor
  }

  /** The cover: the placeholder unless the first result has a usable `cover_i`. */
  function ResolveCover(lookup: Search): (cover: string)
    ensures lookup.Docs? && |lookup.docs| > 0 && UsableCoverId(lookup.docs[0].coverI) ==>
              cover == CoverUrl(lookup.docs[0].coverI.value)
    ensures !(lookup.Docs? && |lookup.docs| > 0 && UsableCoverId(lookup.docs[0].coverI)) ==>
              cover == PlaceholderCover
  {
    match lookup
    case SearchFailed => PlaceholderCover
    case Docs(docs) => if |docs| > 0 then CoverFor(docs[0].coverI) else PlaceholderCover
  }

  /** A top-pick card, from its own author search (ignored when not needed) and its cover search. */
  function TopPickCard(p: Pick, authorSearch: Search, coverSearch: Search): (c: Card)
    ensures c.title == p.title
    ensures c.author == ResolveAuthor(p, authorSearch) && c.cover == ResolveCover(coverSearch)
  {
    Card(ResolveCover(coverSearch), p.title, ResolveAuthor(p, authorSearch))
  }

  /** With an author configured, the author search cannot change the card. */
  lemma ConfiguredAuthorIgnoresSearch(p: Pick, s1: Search, s2: Search, coverSearch: Search)
    requires !NeedsAuthorLookup(p)
    ensures TopPickCard(p, s1, coverSearch) == TopPickCard(p, s2, coverSearch)
    ensures TopPickCard(p, s1, coverSearch).author == p.author.value
  {
  }

  /** Of the five top picks only "Angels & Demons" has its author configured; the empty one counts as missing. */
  lemma OnlyOnePickConfigured()
    ensures forall i :: 0 <= i < |TopPicks| ==> (NeedsAuthorLookup(TopPicks[i]) <==> i != 3)
  {
  }

  /** A failed search shows the unknown author (when looked up) and the placeholder cover. */
  lemma FailedSearchFallsBack(p: Pick)
    requires NeedsAuthorLookup(p)
    ensures TopPickCard(p, SearchFailed, SearchFailed) == Card(PlaceholderCover, p.title, UnknownAuthor)
  {
  }

  /** The cards of `loadTopBooks`, in the configured order, one search pair per pick. */
  function TopBookCards(authorSearches: seq<Search>, coverSearches: seq<Search>): (cards: seq<Card>)
    requires |authorSearches| == |TopPicks| && |coverSearches| == |TopPicks|
    ensures |cards| == |TopPicks|
    ensures forall i :: 0 <= i < |cards| ==>
              cards[i] == TopPickCard(TopPicks[i], authorSearches[i], coverSearches[i])
    ensures forall i :: 0 <= i < |cards| ==> cards[i].title == TopPicks[i].title
    ensures cards[3].author == "Dan Brown"
  {
    seq(|TopPicks|, i requires 0 <= i < |TopPicks| => TopPickCard(TopPicks[i], authorSearches[i], coverSearches[i]))
  }
}
