/** The destination search box: the effect that recomputes the result list
    whenever the query changes. */
module Search {

  import opened Wrappers
  import opened Catalog
  import Seqs
  import Text

  /** The search half of the page: the live query, the results shown under
      the box, and the destination picked from them (if any). */
  datatype SearchState = SearchState(
    query: string,
    filtered: seq<Destination>,
    selected: Option<Destination>)

  const EmptySearch := SearchState("", [], None)

  /** Case-insensitive substring match of the query on the city name. The
      query is NOT trimmed here; only the blank test trims it. */
  predicate Matches(query: string, d: Destination) {
    Text.Includes(Text.ToLower(d.city), Text.ToLower(query))
  }

  function MatchesQuery(query: string): Destination -> bool {
    d => Matches(query, d)
  }

  /** The result list for `query`: nothing for a blank query, otherwise the
      matching catalog entries (all copies, nothing else). */
  function Results(catalog: seq<Destination>, query: string): (r: seq<Destination>)
    ensures Text.IsBlank(query) ==> r == []
    ensures !Text.IsBlank(query) ==>
      forall d :: d in r <==> d in catalog && Matches(query, d)
    ensures !Text.IsBlank(query) ==>
      forall d :: multiset(r)[d] == if Matches(query, d) then multiset(catalog)[d] else 0
    ensures forall d :: d in r ==> d in catalog
  {
    if Text.IsBlank(query) then [] else Seqs.Filter(catalog, MatchesQuery(query))
  }

  /** Results keep catalog order: they form a subsequence of the catalog. */
  lemma ResultsInCatalogOrder(catalog: seq<Destination>, query: string)
    ensures Seqs.IsSubseq(Results(catalog, query), catalog)
  {
    if !Text.IsBlank(query) {
      Seqs.FilterIsSubseq(catalog, MatchesQuery(query));
    }
  }

  /** Matching ignores letter case in the query. */
  lemma MatchIgnoresQueryCase(query: string, d: Destination)
    ensures Matches(Text.ToLower(query), d) <==> Matches(query, d)
  {
    Text.ToLowerIdempotent(query);
  }

  /** The match uses the query untrimmed: a whitespace character anywhere
      in the query, leading or trailing included, must occur in the city of
      every result. */
  lemma QuerySpacesMustMatch(catalog: seq<Destination>, query: string, k: int, d: Destination)
    requires 0 <= k < |query| && Text.IsSpace(query[k])
    ensures d in Results(catalog, query) ==> query[k] in d.city
  {
    var city := Text.ToLower(d.city);
    var q := Text.ToLower(query);
    assert q[k] == query[k];
    if query[k] !in d.city {
      Text.ToLowerKeepsSpaces(d.city, query[k]);
      Text.MissingCharNotIncluded(city, q, k);
    }
  }

  /** Typing into the search box: the query is replaced and the results are
      recomputed from it; the selection is untouched. */
  function SetQuery(s: SearchState, catalog: seq<Destination>, query: string): (r: SearchState)
    ensures r.query == query && r.selected == s.selected
    ensures Text.IsBlank(query) ==> r.filtered == []
    ensures !Text.IsBlank(query) ==>
      forall d :: d in r.filtered <==> d in catalog && Matches(query, d)
    ensures !Text.IsBlank(query) ==>
      forall d :: multiset(r.filtered)[d] == if Matches(query, d) then multiset(catalog)[d] else 0
    ensures Seqs.IsSubseq(r.filtered, catalog)
  {
    ResultsInCatalogOrder(catalog, query);
    s.(query := query, filtered := Results(catalog, query))
  }

  /** The empty query shows nothing, so clearing the box and emptying the
      list together keep the list in step with the query. */
  lemma EmptyQueryShowsNothing(catalog: seq<Destination>)
    ensures Results(catalog, "") == []
  {
  }

  const Paris := Destination("Paris", [], [])
  const Rome := Destination("Rome", [], [])

  lemma ExampleQueriesNotBlank()
    ensures !Text.IsBlank("par") && !Text.IsBlank("par ")
  {
    Text.NotBlankWhenStartsWithNonSpace("par");
    Text.NotBlankWhenStartsWithNonSpace("par ");
  }

  lemma ExampleMatches()
    ensures Matches("par", Paris) && !Matches("par", Rome)
    ensures !Matches("par ", Paris) && !Matches("par ", Rome)
  {
    assert Text.ToLower("Paris") == "paris";
    assert Text.ToLower("Rome") == "rome";
    assert Text.ToLower("par") == "par";
    assert Text.ToLower("par ") == "par ";
    assert Text.OccursAt("paris", "par", 0);
    Text.MissingCharNotIncluded("rome", "par", 0);
    Text.MissingCharNotIncluded("paris", "par ", 3);
    Text.MissingCharNotIncluded("rome", "par ", 0);
  }

  /** Filtering a two-entry list, entry by entry. */
  lemma FilterPair(a: Destination, b: Destination, p: Destination -> bool)
    ensures Seqs.Filter([a, b], p) == (if p(a) then [a] else []) + (if p(b) then [b] else [])
  {
    assert [a, b][1..] == [b];
    assert [b][1..] == [];
  }

  /** A worked case: "par" finds Paris and not Rome. */
  lemma ParFindsParis()
    ensures Results([Paris, Rome], "par") == [Paris]
  {
    ExampleQueriesNotBlank();
    ExampleMatches();
    FilterPair(Paris, Rome, MatchesQuery("par"));
  }

  /** The query is matched untrimmed: "par " (trailing space) is not blank,
      yet finds nothing where "par" finds Paris. */
  lemma TrailingSpaceFindsNothing()
    ensures Results([Paris, Rome], "par ") == []
  {
    ExampleQueriesNotBlank();
    ExampleMatches();
    FilterPair(Paris, Rome, MatchesQuery("par "));
  }

}
