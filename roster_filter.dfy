/**
 * The roster filter of the page: a player is shown when it passes the text
 * search, the region test, the role test and the tag test at once, and the
 * shown players keep the dataset's order.
 */
module RosterFilter {
  import opened Strings
  import opened Wrappers
  import opened PlayerData
  import opened Sequences

  /** The region selector's value: the sentinel `All regions` or one region. */
  datatype RegionFilter = AllRegions | Only(region: Region)

  /** The sentinel of the role selector. */
  const AllRoles: string := "All roles"

  /** `regionOptions`: the sentinel first, then every region once. */
  function RegionOptions(): (options: seq<RegionFilter>)
    ensures |options| == 3 && options[0] == AllRegions
    ensures forall i, j :: 0 <= i < j < |options| ==> options[i] != options[j]
  {
    [AllRegions, Only(NorthAmerica), Only(EMEA)]
  }

  /** The option text: the string the selector shows and stores for each value. */
  function RegionLabel(f: RegionFilter): string {
    match f
    case AllRegions => "All regions"
    case Only(r) => RegionName(r)
  }

  /**
   * The options read `All regions`, `North America`, `EMEA`, and different
   * values have different labels, so comparing labels (as the region test
   * does on strings) is comparing values.
   */
  lemma RegionLabels(f: RegionFilter, g: RegionFilter)
    ensures Map(RegionOptions(), RegionLabel) == ["All regions", "North America", "EMEA"]
    ensures RegionLabel(f) == RegionLabel(g) <==> f == g
  {
    var labels := Map(RegionOptions(), RegionLabel);
    assert labels[0] == "All regions" && labels[1] == "North America" && labels[2] == "EMEA";
    if f != g {
      assert RegionLabel(f)[0] != RegionLabel(g)[0] || |RegionLabel(f)| != |RegionLabel(g)|;
    }
  }

  /** Every value the region selector can take is offered. */
  lemma RegionOptionsComplete(f: RegionFilter)
    ensures f in RegionOptions()
  {
    match f
    case AllRegions =>
    case Only(r) =>
      match r
      case NorthAmerica => assert RegionOptions()[1] == f;
      case EMEA => assert RegionOptions()[2] == f;
  }

  /** The four filter selections of the page. */
  datatype Filters = Filters(
    searchTerm: string,
    region: RegionFilter,
    role: string,
    tag: Option<string>)

  /** The selections under which nothing is filtered out (the page's initial state). */
  const Unconstrained: Filters := Filters("", AllRegions, AllRoles, None)

  /** `searchTerm.trim().toLowerCase()` */
  function Query(searchTerm: string): string {
    Lower(Trim(searchTerm))
  }

  /** The searchable fields of a player, in the order they are joined. */
  function SearchFields(p: Player): seq<string> {
    [p.alias, p.name, p.country, p.currentTeam, p.valorantRole] +
    p.valorantHighlights + p.csHighlights + p.tags
  }

  /** The lower-cased, space-joined text the query is looked up in. */
  function SearchText(p: Player): string {
    Lower(Join(SearchFields(p), " "))
  }

  predicate MatchesSearch(p: Player, query: string) {
    |query| == 0 || Contains(SearchText(p), query)
  }

  predicate MatchesRegion(p: Player, selected: RegionFilter) {
    selected == AllRegions || p.region == selected.region
  }

  /** Substring containment in the raw role descriptor, not a match against its `/`-separated roles. */
  predicate MatchesRole(p: Player, selected: string) {
    selected == AllRoles || Contains(p.valorantRole, selected)
  }

  /** `!selectedTag || player.tags.some((tag) => tag === selectedTag)`: the empty tag is falsy, like `null`. */
  predicate MatchesTag(p: Player, selected: Option<string>) {
    selected == None || selected.value == "" || selected.value in p.tags
  }

  /** The filter callback: all four tests at once. */
  predicate Matches(p: Player, f: Filters) {
    MatchesSearch(p, Query(f.searchTerm)) &&
    MatchesRegion(p, f.region) &&
    MatchesRole(p, f.role) &&
    MatchesTag(p, f.tag)
  }

  /** `filteredPlayers`: `players.filter(...)` with the callback above. */
  function FilteredPlayers(players: seq<Player>, f: Filters): (shown: seq<Player>)
    ensures |shown| <= |players|
  {
    Filter(players, (p: Player) => Matches(p, f))
  }

  /**
   * The filtered roster is the subsequence of the players at the kept
   * positions: the positions increase (order is kept, nothing repeats), and
   * a position is kept exactly when its player passes all four tests.
   */
  lemma FilterSelectsMatching(players: seq<Player>, f: Filters)
    ensures var shown, kept := FilteredPlayers(players, f), KeptIndices(players, (p: Player) => Matches(p, f));
      && |shown| == |kept|
      && (forall k :: 0 <= k < |kept| ==> kept[k] < |players| && shown[k] == players[kept[k]])
      && (forall k, l :: 0 <= k < l < |kept| ==> kept[k] < kept[l])
      && (forall j :: 0 <= j < |players| ==> (j in kept <==> Matches(players[j], f)))
  {
    FilterIsSubsequence(players, (p: Player) => Matches(p, f));
  }

  /** A player is shown exactly when it is in the dataset and passes all four tests. */
  lemma FilterMembership(players: seq<Player>, f: Filters, p: Player)
    ensures p in FilteredPlayers(players, f) <==> p in players && Matches(p, f)
  {
    FilterElement(players, (p: Player) => Matches(p, f), p);
  }

  /**
   * A blank (empty or all-whitespace) search, `All regions`, `All roles` and
   * no tag show the whole roster in order, so "Showing N of M" has N == M.
   */
  lemma UnconstrainedShowsAll(players: seq<Player>, searchTerm: string)
    requires forall k :: 0 <= k < |searchTerm| ==> IsWhitespace(searchTerm[k])
    ensures FilteredPlayers(players, Filters(searchTerm, AllRegions, AllRoles, None)) == players
  {
    TrimEmptyIff(searchTerm);
    FilterAll(players, (p: Player) => Matches(p, Filters(searchTerm, AllRegions, AllRoles, None)));
  }

  /** Search terms that differ only in letter case select the same players. */
  lemma SearchIgnoresCase(players: seq<Player>, f: Filters, other: string)
    requires Lower(other) == Lower(f.searchTerm)
    ensures FilteredPlayers(players, f.(searchTerm := other)) == FilteredPlayers(players, f)
  {
    TrimLowerCommute(other);
    TrimLowerCommute(f.searchTerm);
    SameQuerySameRoster(players, f, other);
  }

  /** Search terms that differ only in surrounding whitespace select the same players. */
  lemma SearchIgnoresSurroundingSpace(players: seq<Player>, f: Filters, other: string)
    requires Trim(other) == Trim(f.searchTerm)
    ensures FilteredPlayers(players, f.(searchTerm := other)) == FilteredPlayers(players, f)
  {
    SameQuerySameRoster(players, f, other);
  }

  /** The roster depends on the search term only through its query. */
  lemma SameQuerySameRoster(players: seq<Player>, f: Filters, other: string)
    requires Query(other) == Query(f.searchTerm)
    ensures FilteredPlayers(players, f.(searchTerm := other)) == FilteredPlayers(players, f)
  {
    var g := f.(searchTerm := other);
    assert forall p :: p in players ==> Matches(p, g) == Matches(p, f);
    FilterSamePredicate(players, (p: Player) => Matches(p, g), (p: Player) => Matches(p, f));
  }

  /**
   * The converse, for a query without a space: passing the text search means
   * the query occurs, ignoring case, inside a single searchable field. A query
   * with an inner space can span two fields (alias "ab", name "cd", query
   * "b c"), so the space is excluded.
   */
  lemma SearchNeedsOneField(p: Player, searchTerm: string)
    requires ' ' !in Query(searchTerm)
    ensures MatchesSearch(p, Query(searchTerm)) ==>
      exists k :: 0 <= k < |SearchFields(p)| && Contains(Lower(SearchFields(p)[k]), Query(searchTerm))
  {
    var q, fields := Query(searchTerm), SearchFields(p);
    if |q| == 0 {
      assert Contains(Lower(fields[0]), q);
    } else if Contains(SearchText(p), q) {
      LowerJoinOccurrence(fields, q);
    }
  }

  /**
   * A space-free query that occurs in no searchable field of any player
   * shows nobody ("Showing 0 of M").
   */
  lemma SearchMissShowsNobody(players: seq<Player>, f: Filters)
    requires ' ' !in Query(f.searchTerm)
    requires forall p, k :: p in players && 0 <= k < |SearchFields(p)| ==>
      !Contains(Lower(SearchFields(p)[k]), Query(f.searchTerm))
    ensures FilteredPlayers(players, f) == []
  {
    forall p | p in players ensures !Matches(p, f) {
      SearchNeedsOneField(p, f.searchTerm);
    }
    FilterNone(players, (p: Player) => Matches(p, f));
  }

  /** A query found, case-insensitively, in any one searchable field passes the text search. */
  lemma SearchFindsField(p: Player, searchTerm: string, k: int)
    requires 0 <= k < |SearchFields(p)|
    requires Contains(Lower(SearchFields(p)[k]), Query(searchTerm))
    ensures MatchesSearch(p, Query(searchTerm))
  {
    JoinContainsPart(SearchFields(p), " ", k);
    ContainsLower(Join(SearchFields(p), " "), SearchFields(p)[k]);
    ContainsTransitive(SearchText(p), Lower(SearchFields(p)[k]), Query(searchTerm));
  }
}
