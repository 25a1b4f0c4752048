/** The nullable selection used for the tag filter (`string | null`). */
module Wrappers {
  datatype Option<T> = None | Some(value: T)
}

/**
 * The shape of the records in the player dataset. The dataset itself is not
 * part of this model: every operation takes an arbitrary sequence of players.
 */
module PlayerData {

  /** `Player['region']`: the two competitive regions of the dataset. */
  datatype Region = NorthAmerica | EMEA

  /** The display name of a region, as the region selector shows it. */
  function RegionName(r: Region): string {
    match r
    case NorthAmerica => "North America"
    case EMEA => "EMEA"
  }

  /** The social links shown on a card; an empty `twitter` or `twitch` stands for a link the player does not have. */
  datatype Socials = Socials(twitter: string, twitch: string, liquipedia: string)

  /** One career entry: year, game identifier, team, achievement text and event tier. */
  datatype TimelineEntry = TimelineEntry(
    year: int,
    game: string,
    team: string,
    achievement: string,
    tier: string)

  /** A player record of the dataset. */
  datatype Player = Player(
    id: string,
    alias: string,
    name: string,
    country: string,
    region: Region,
    currentTeam: string,
    headline: string,
    valorantRole: string,
    valorantHighlights: seq<string>,
    csHighlights: seq<string>,
    tags: seq<string>,
    socials: Socials,
    timeline: seq<TimelineEntry>)
}
