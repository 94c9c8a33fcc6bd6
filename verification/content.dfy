/**
 The content shapes the admin panel and the root component work with, in the
 remote-database form they use: numeric ids, `ticket_url`, and releases that
 carry their `release_links` rows.
 */
module Content {

  datatype Option<+T> = None | Some(value: T)

  /** The outcome of one remote query: the rows it returned, or an error. */
  datatype Result<+T> = Ok(data: T) | Err(message: string)

  /** JavaScript truthiness of a numeric id: only 0 is falsy. */
  predicate Truthy(id: int) {
    id != 0
  }

  /** The editable columns of a `shows` row (everything but `id`). */
  datatype ShowFields = ShowFields(
    date: string,
    venue: string,
    city: string,
    eventName: Option<string>,
    ticketUrl: string)

  datatype Show = Show(id: int, fields: ShowFields)

  /** The editable columns of a `releases` row. */
  datatype ReleaseFields = ReleaseFields(title: string, imageUrl: string)

  /** A `release_links` row as read back with its release. */
  datatype Link = Link(id: int, releaseId: int, platform: string, url: string)

  /** A release as loaded together with its `release_links` children. */
  datatype Release = Release(id: int, fields: ReleaseFields, links: seq<Link>)

  /** The single `artist_info` row; only its presence matters to the logic. */
  datatype ArtistInfo = ArtistInfo(
    artistName: string,
    logoUrl: string,
    heroImage: string,
    embedUrl: string)

  /** The ids of a sequence of links, in order. */
  function LinkIds(links: seq<Link>): (ids: seq<int>)
    ensures |ids| == |links|
    ensures forall j :: 0 <= j < |links| ==> ids[j] == links[j].id
  {
    if links == [] then [] else [links[0].id] + LinkIds(links[1..])
  }
}
