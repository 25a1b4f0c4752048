/**
 * The page component's state: the four filter selections held in React
 * state and changed by the controls' handlers, and the values memoised once
 * from the dataset (role options, tag options, counters).
 */
module PageState {
  import opened Strings
  import opened Sorting
  import opened Wrappers
  import opened PlayerData
  import opened RosterFilter
  import opened FilterOptions
  import opened Aggregates

  /** The tag buttons' update: `tag === selectedTag ? null : tag`. */
  function ToggleTag(selected: Option<string>, tag: string): (next: Option<string>)
    ensures next == None <==> selected == Some(tag)
    ensures next != None ==> next.value == tag
  {
    if selected == Some(tag) then None else Some(tag)
  }

  /** Clicking a tag twice from no selection ends with no selection. */
  lemma ToggleTwiceFromNone(tag: string)
    ensures ToggleTag(ToggleTag(None, tag), tag) == None
  {
  }

  /** Two clicks on the same tag: back to that tag if it was selected, otherwise to no selection. */
  lemma ToggleTwiceFromSelected(selected: Option<string>, tag: string)
    ensures ToggleTag(ToggleTag(selected, tag), tag) == (if selected == Some(tag) then Some(tag) else None)
  {
  }

  class Page {
    /** The dataset. */
    const players: seq<Player>

    /** `roleOptions`, `tagOptions`, `aggregates`: memoised with no dependencies, so computed once. */
    const roleOptions: seq<string>
    const tagOptions: seq<string>
    const aggregates: Totals

    /** The four pieces of React state. */
    var searchTerm: string
    var selectedRegion: RegionFilter
    var selectedRole: string
    var selectedTag: Option<string>

    /** The derived values are what their specifications say. */
    ghost predicate Valid()
      reads this
    {
      && IsRoleOptions(players, roleOptions)
      && IsTagOptions(players, tagOptions)
      && IsTally(aggregates, Entries(players))
    }

    /** The first render: state at its initial values, memoised values computed. */
    constructor (players: seq<Player>)
      ensures Valid() && this.players == players
      ensures CurrentFilters() == Unconstrained
    {
      this.players := players;
      var roles := RoleOptions(players);
      var tags := TagOptions(players);
      var totals := ComputeAggregates(players);
      roleOptions, tagOptions, aggregates := roles, tags, totals;
      searchTerm, selectedRegion, selectedRole, selectedTag := "", AllRegions, AllRoles, None;
    }

    /** The current selections. */
    function CurrentFilters(): Filters
      reads this
    {
      Filters(searchTerm, selectedRegion, selectedRole, selectedTag)
    }

    /** `filteredPlayers` for the current selections: "Showing N of M" never has N > M. */
    function Shown(): (shown: seq<Player>)
      reads this
      ensures |shown| <= |players|
    {
      FilteredPlayers(players, CurrentFilters())
    }

    /** The search box's `onChange`. */
    method SetSearchTerm(value: string)
      modifies this`searchTerm
      ensures searchTerm == value
    {
      searchTerm := value;
    }

    /** The region selector's `onChange`. */
    method SetRegion(value: RegionFilter)
      modifies this`selectedRegion
      ensures selectedRegion == value
    {
      selectedRegion := value;
    }

    /** The role selector's `onChange`. */
    method SetRole(value: string)
      modifies this`selectedRole
      ensures selectedRole == value
    {
      selectedRole := value;
    }

    /** The "All tags" button: always clears the tag selection. */
    method ClickAllTags()
      modifies this`selectedTag
      ensures selectedTag == None
    {
      selectedTag := None;
    }

    /** A tag button: selects its tag, or clears the selection when that tag is already selected. */
    method ClickTag(tag: string)
      modifies this`selectedTag
      ensures selectedTag == ToggleTag(old(selectedTag), tag)
      ensures selectedTag == None <==> old(selectedTag) == Some(tag)
    {
      selectedTag := if selectedTag.Some? && tag == selectedTag.value then None else Some(tag);
    }
  }

  /** One interaction with the controls: each of the page's handlers. */
  datatype Event =
    | SearchTyped(value: string)
    | RegionChosen(region: RegionFilter)
    | RoleChosen(role: string)
    | AllTagsClicked
    | TagClicked(tag: string)

  /** The selections after one event. */
  function Step(f: Filters, e: Event): Filters {
    match e
    case SearchTyped(value) => f.(searchTerm := value)
    case RegionChosen(region) => f.(region := region)
    case RoleChosen(role) => f.(role := role)
    case AllTagsClicked => f.(tag := None)
    case TagClicked(tag) => f.(tag := ToggleTag(f.tag, tag))
  }

  /** The selections after a series of events, from `f`. */
  function Replay(f: Filters, events: seq<Event>): Filters {
    if events == [] then f
    else
      var n := |events| - 1;
      Step(Replay(f, events[..n]), events[n])
  }

  /** The tag selection after a series of events, from no selection, is always a tag that was clicked. */
  lemma {:induction false} ReplayTagWasClicked(events: seq<Event>)
    ensures Replay(Unconstrained, events).tag == None ||
      exists k :: 0 <= k < |events| && events[k] == TagClicked(Replay(Unconstrained, events).tag.value)
  {
    if events != [] {
      var n := |events| - 1;
      ReplayTagWasClicked(events[..n]);
      var before := Replay(Unconstrained, events[..n]);
      if Replay(Unconstrained, events).tag != None && events[n] != TagClicked(Replay(Unconstrained, events).tag.value) {
        assert Replay(Unconstrained, events).tag == before.tag;
        var k :| 0 <= k < n && events[..n][k] == TagClicked(before.tag.value);
        assert events[k] == events[..n][k];
      }
    }
  }

  /** Dispatches one event to its handler. */
  method Handle(page: Page, e: Event)
    modifies page
    ensures page.CurrentFilters() == Step(old(page.CurrentFilters()), e)
  {
    match e
    case SearchTyped(value) => page.SetSearchTerm(value);
    case RegionChosen(region) => page.SetRegion(region);
    case RoleChosen(role) => page.SetRole(role);
    case AllTagsClicked => page.ClickAllTags();
    case TagClicked(tag) => page.ClickTag(tag);
  }

  /**
   * A visit: the first render, then the events in order. Whatever the
   * events, the roster shown is `filteredPlayers` for the selections they
   * lead to, "Showing N of M" has N <= M, and the header counters stay those
   * of the whole dataset.
   */
  method Session(players: seq<Player>, events: seq<Event>) returns (shown: seq<Player>, counters: Totals)
    ensures shown == FilteredPlayers(players, Replay(Unconstrained, events))
    ensures |shown| <= |players|
    ensures IsTally(counters, Entries(players))
  {
    var page := new Page(players);
    for i := 0 to |events|
      invariant page.players == players && page.Valid()
      invariant page.CurrentFilters() == Replay(Unconstrained, events[..i])
    {
      Handle(page, events[i]);
      assert events[..i + 1][..i] == events[..i];
    }
    assert events[..|events|] == events;
    shown, counters := page.Shown(), page.aggregates;
  }
}
