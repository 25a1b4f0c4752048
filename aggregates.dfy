/**
 * The three header counters: one pass over every timeline entry of every
 * player, regardless of the filters.
 */
module Aggregates {
  import opened Strings
  import opened PlayerData

  /** The accumulator `acc` of the counting pass. */
  datatype Totals = Totals(
    csMajorAppearances: nat,
    valorantInternationalPlacements: nat,
    trophiesClaimed: nat)

  /** A CS:GO Major entry. */
  predicate IsCsMajor(e: TimelineEntry) {
    e.game == "CS:GO" && e.tier == "Major"
  }

  /** A Valorant entry of tier International or Champions. */
  predicate IsValorantInternational(e: TimelineEntry) {
    e.game == "Valorant" && (e.tier == "International" || e.tier == "Champions")
  }

  /** `/won/i.test(entry.achievement)`: "won" anywhere in the text, in any letter case, inside longer words too. */
  predicate IsTrophy(e: TimelineEntry) {
    Contains(Lower(e.achievement), "won")
  }

  /** Every timeline entry of every player, player by player, each timeline in its own order. */
  function Entries(players: seq<Player>): seq<TimelineEntry> {
    if players == [] then []
    else
      var n := |players| - 1;
      Entries(players[..n]) + players[n].timeline
  }

  /** The number of entries that satisfy `counted`; never more than there are entries. */
  function Count(entries: seq<TimelineEntry>, counted: TimelineEntry -> bool): (c: nat)
    ensures c <= |entries|
  {
    if entries == [] then 0
    else
      var n := |entries| - 1;
      Count(entries[..n], counted) + (if counted(entries[n]) then 1 else 0)
  }

  /** `acc` holds, counter by counter, the counts over `entries`. */
  predicate IsTally(acc: Totals, entries: seq<TimelineEntry>) {
    && acc.csMajorAppearances == Count(entries, IsCsMajor)
    && acc.valorantInternationalPlacements == Count(entries, IsValorantInternational)
    && acc.trophiesClaimed == Count(entries, IsTrophy)
  }

  /**
   * `aggregates`: `players.reduce(...)` from all-zero counters, the callback
   * adding each player's timeline.
   */
  method ComputeAggregates(players: seq<Player>) returns (acc: Totals)
    ensures IsTally(acc, Entries(players))
  {
    acc := Totals(0, 0, 0);
    for i := 0 to |players|
      invariant IsTally(acc, Entries(players[..i]))
    {
      acc := AddTimeline(acc, players[i].timeline);
      assert players[..i + 1][..i] == players[..i];
      CountAppend(Entries(players[..i]), players[i].timeline, IsCsMajor);
      CountAppend(Entries(players[..i]), players[i].timeline, IsValorantInternational);
      CountAppend(Entries(players[..i]), players[i].timeline, IsTrophy);
    }
    assert players[..|players|] == players;
  }

  /** The `reduce` callback: `player.timeline.forEach(...)` bumping `acc` for each entry that meets a condition. */
  method AddTimeline(acc: Totals, timeline: seq<TimelineEntry>) returns (next: Totals)
    ensures next.csMajorAppearances == acc.csMajorAppearances + Count(timeline, IsCsMajor)
    ensures next.valorantInternationalPlacements == acc.valorantInternationalPlacements + Count(timeline, IsValorantInternational)
    ensures next.trophiesClaimed == acc.trophiesClaimed + Count(timeline, IsTrophy)
  {
    next := acc;
    for j := 0 to |timeline|
      invariant next.csMajorAppearances == acc.csMajorAppearances + Count(timeline[..j], IsCsMajor)
      invariant next.valorantInternationalPlacements == acc.valorantInternationalPlacements + Count(timeline[..j], IsValorantInternational)
      invariant next.trophiesClaimed == acc.trophiesClaimed + Count(timeline[..j], IsTrophy)
    {
      var entry := timeline[j];
      assert timeline[..j + 1] == timeline[..j] + [entry];
      CountStep(timeline[..j], entry, IsCsMajor);
      CountStep(timeline[..j], entry, IsValorantInternational);
      CountStep(timeline[..j], entry, IsTrophy);
      if IsCsMajor(entry) {
        next := next.(csMajorAppearances := next.csMajorAppearances + 1);
      }
      if IsValorantInternational(entry) {
        next := next.(valorantInternationalPlacements := next.valorantInternationalPlacements + 1);
      }
      if IsTrophy(entry) {
        next := next.(trophiesClaimed := next.trophiesClaimed + 1);
      }
    }
    assert timeline[..|timeline|] == timeline;
  }

  lemma CountStep(entries: seq<TimelineEntry>, e: TimelineEntry, counted: TimelineEntry -> bool)
    ensures Count(entries + [e], counted) == Count(entries, counted) + (if counted(e) then 1 else 0)
  {
    assert (entries + [e])[..|entries|] == entries;
  }

  /** Counting is additive over concatenation. */
  lemma {:induction false} CountAppend(a: seq<TimelineEntry>, b: seq<TimelineEntry>, counted: TimelineEntry -> bool)
    ensures Count(a + b, counted) == Count(a, counted) + Count(b, counted)
  {
    if b == [] {
      assert a + b == a;
    } else {
      var n := |b| - 1;
      CountAppend(a, b[..n], counted);
      assert (a + b)[..|a| + n] == a + b[..n];
      assert (a + b)[|a| + n] == b[n];
    }
  }

  /** The positions of the entries that satisfy `counted`. */
  function Positions(entries: seq<TimelineEntry>, counted: TimelineEntry -> bool): set<int> {
    set k | 0 <= k < |entries| && counted(entries[k])
  }

  /** A counter is the number of entries meeting its condition. */
  lemma {:induction false} CountIsNumberOfPositions(entries: seq<TimelineEntry>, counted: TimelineEntry -> bool)
    ensures Count(entries, counted) == |Positions(entries, counted)|
  {
    if entries != [] {
      var n := |entries| - 1;
      CountIsNumberOfPositions(entries[..n], counted);
      var before := Positions(entries[..n], counted);
      assert Positions(entries, counted) == before + (if counted(entries[n]) then {n} else {});
      assert n !in before;
    }
  }

  /** The dataset's entries are the timelines of its players, one after the other. */
  lemma {:induction false} EntriesLength(players: seq<Player>)
    ensures |Entries(players)| == TimelineLengths(players)
  {
    if players != [] {
      EntriesLength(players[..|players| - 1]);
    }
  }

  /** The total number of timeline entries. */
  function TimelineLengths(players: seq<Player>): nat {
    if players == [] then 0 else TimelineLengths(players[..|players| - 1]) + |players[|players| - 1].timeline|
  }

  /** Each counter is at most the total number of timeline entries of all players. */
  lemma TallyBounded(players: seq<Player>, acc: Totals)
    requires IsTally(acc, Entries(players))
    ensures acc.csMajorAppearances <= TimelineLengths(players)
    ensures acc.valorantInternationalPlacements <= TimelineLengths(players)
    ensures acc.trophiesClaimed <= TimelineLengths(players)
  {
    EntriesLength(players);
  }

  /** The counters over two rosters side by side are the sums of their counters. */
  lemma TallyAppend(a: seq<Player>, b: seq<Player>, counted: TimelineEntry -> bool)
    ensures Count(Entries(a + b), counted) == Count(Entries(a), counted) + Count(Entries(b), counted)
  {
    EntriesAppend(a, b);
    CountAppend(Entries(a), Entries(b), counted);
  }

  lemma {:induction false} EntriesAppend(a: seq<Player>, b: seq<Player>)
    ensures Entries(a + b) == Entries(a) + Entries(b)
  {
    if b == [] {
      assert a + b == a;
    } else {
      var n := |b| - 1;
      EntriesAppend(a, b[..n]);
      assert (a + b)[..|a| + n] == a + b[..n];
      assert (a + b)[|a| + n] == b[n];
      calc {
        Entries(a + b);
        Entries(a + b[..n]) + b[n].timeline;
        (Entries(a) + Entries(b[..n])) + b[n].timeline;
        Entries(a) + (Entries(b[..n]) + b[n].timeline);
        Entries(a) + Entries(b);
      }
    }
  }
}
