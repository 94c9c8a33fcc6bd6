/**
 An abstract model of the remote tables the admin panel writes to:
 `shows`, `releases` and `release_links`, each a map from id to row, and one
 counter standing for the database's id generator.

 Assumed semantics of the calls (the client library is not part of this model):
 - `update(..).eq('id', id).select().single()` changes the row with that id and
   returns it; with no such row, `single()` reports an error;
 - `insert(..).select().single()` stores the row under a fresh id and returns it;
 - `upsert(rows)` overwrites the row of every entry that carries an id and
   inserts every entry without one under a fresh id;
 - `delete().eq('id', id)` / `delete().in('id', ids)` remove those rows, and
   removing an id that is not there changes nothing.
 A call the service rejects (`fail`) has no effect.
 */
module Store {
  import opened Content

  datatype LinkRow = LinkRow(releaseId: int, platform: string, url: string)

  datatype Db = Db(
    shows: map<int, ShowFields>,
    releases: map<int, ReleaseFields>,
    links: map<int, LinkRow>,
    nextId: int)

  /** Ids handed out by the generator are at least 1 and below `nextId`. */
  ghost predicate Valid(db: Db) {
    && db.nextId >= 1
    && (forall k :: k in db.shows ==> 1 <= k < db.nextId)
    && (forall k :: k in db.releases ==> 1 <= k < db.nextId)
    && (forall k :: k in db.links ==> 1 <= k < db.nextId && db.links[k].releaseId < db.nextId)
  }

  /** The reply to a call that ends in `.select().single()`. */
  datatype Reply<+T> = Row(db: Db, row: T) | Rejected

  // ---------------------------------------------------------------- shows

  function UpdateShow(db: Db, id: int, fields: ShowFields, fail: bool): (r: Reply<Show>)
    ensures r.Row? <==> !fail && id in db.shows
    ensures r.Row? ==> r.row == Show(id, fields) && id in r.db.shows && r.db.shows[id] == fields
    ensures r.Row? ==> r.db.shows.Keys == db.shows.Keys
    ensures r.Row? ==> forall k :: k in db.shows && k != id ==> r.db.shows[k] == db.shows[k]
    ensures r.Row? ==> r.db.(shows := db.shows) == db
  {
    if fail || id !in db.shows then Rejected
    else Row(db.(shows := db.shows[id := fields]), Show(id, fields))
  }

  function InsertShow(db: Db, fields: ShowFields, fail: bool): (r: Reply<Show>)
    ensures r.Row? <==> !fail
    ensures r.Row? ==> r.row == Show(db.nextId, fields)
    ensures r.Row? ==> r.db.shows == db.shows[r.row.id := fields]
    ensures r.Row? ==> r.db.nextId > r.row.id >= db.nextId
    ensures r.Row? ==> r.db == db.(shows := db.shows[db.nextId := fields], nextId := db.nextId + 1)
  {
    if fail then Rejected
    else Row(db.(shows := db.shows[db.nextId := fields], nextId := db.nextId + 1), Show(db.nextId, fields))
  }

  function DeleteShow(db: Db, id: int, fail: bool): (r: Db)
    ensures id !in r.shows || fail
    ensures fail ==> r == db
    ensures r.shows.Keys == if fail then db.shows.Keys else db.shows.Keys - {id}
    ensures forall k :: k in r.shows ==> r.shows[k] == db.shows[k]
    ensures r.(shows := db.shows) == db
  {
    if fail then db else db.(shows := db.shows - {id})
  }

  // ------------------------------------------------------------- releases

  /** The row a release write returns: the `releases` columns only. */
  datatype SavedRelease = SavedRelease(id: int, fields: ReleaseFields)

  function UpdateRelease(db: Db, id: int, fields: ReleaseFields, fail: bool): (r: Reply<SavedRelease>)
    ensures r.Row? <==> !fail && id in db.releases
    ensures r.Row? ==> r.row == SavedRelease(id, fields)
    ensures r.Row? ==> r.db == db.(releases := db.releases[id := fields])
  {
    if fail || id !in db.releases then Rejected
    else Row(db.(releases := db.releases[id := fields]), SavedRelease(id, fields))
  }

  function InsertRelease(db: Db, fields: ReleaseFields, fail: bool): (r: Reply<SavedRelease>)
    ensures r.Row? <==> !fail
    ensures r.Row? ==> r.row == SavedRelease(db.nextId, fields)
    ensures r.Row? ==> r.db.releases == db.releases[db.nextId := fields]
    ensures r.Row? ==> r.db.links == db.links && r.db.shows == db.shows && r.db.nextId == db.nextId + 1
  {
    if fail then Rejected
    else Row(db.(releases := db.releases[db.nextId := fields], nextId := db.nextId + 1),
             SavedRelease(db.nextId, fields))
  }

  function DeleteRelease(db: Db, id: int, fail: bool): (r: Db)
    ensures fail ==> r == db
    ensures !fail ==> r.releases.Keys == db.releases.Keys - {id}
    ensures forall k :: k in r.releases ==> r.releases[k] == db.releases[k]
    ensures r.(releases := db.releases) == db
  {
    if fail then db else db.(releases := db.releases - {id})
  }

  // --------------------------------------------------------- release_links

  /** One entry of an upsert on `release_links`; `id` is absent for new links. */
  datatype LinkUpsert = LinkUpsert(id: Option<int>, releaseId: int, platform: string, url: string)

  function RowOf(u: LinkUpsert): LinkRow {
    LinkRow(u.releaseId, u.platform, u.url)
  }

  /** Upsert of a single entry. */
  function UpsertOne(db: Db, u: LinkUpsert): Db {
    match u.id
    case Some(id) => db.(links := db.links[id := RowOf(u)])
    case None => db.(links := db.links[db.nextId := RowOf(u)], nextId := db.nextId + 1)
  }

  /** The bulk upsert, applied entry by entry in payload order. */
  function UpsertAll(db: Db, p: seq<LinkUpsert>): (r: Db)
    ensures r.shows == db.shows && r.releases == db.releases
    ensures r.nextId == db.nextId + NewCount(p)
    decreases |p|
  {
    if p == [] then db else UpsertAll(UpsertOne(db, p[0]), p[1..])
  }

  /** How many entries carry no id (and so receive a fresh one). */
  function NewCount(p: seq<LinkUpsert>): (n: nat)
    ensures n <= |p|
  {
    if p == [] then 0 else (if p[0].id.None? then 1 else 0) + NewCount(p[1..])
  }

  /**
   The id each payload entry ends up under: its own id when it has one, and
   otherwise the next fresh id, handed out in payload order from `next`.
   */
  function AssignedIds(p: seq<LinkUpsert>, next: int): (a: seq<int>)
    ensures |a| == |p|
  {
    if p == [] then []
    else match p[0].id
      case Some(id) => [id] + AssignedIds(p[1..], next)
      case None => [next] + AssignedIds(p[1..], next + 1)
  }

  /** The entries that carry an id name pairwise different rows. */
  ghost predicate DistinctIds(p: seq<LinkUpsert>) {
    forall i, j :: 0 <= i < j < |p| && p[i].id.Some? && p[j].id.Some? ==> p[i].id != p[j].id
  }

  /** Every id an entry carries is an id the generator has already handed out. */
  ghost predicate IdsBelow(p: seq<LinkUpsert>, next: int) {
    forall j :: 0 <= j < |p| && p[j].id.Some? ==> p[j].id.value < next
  }

  /** The fresh ids handed to the id-less entries lie in `[next, next + NewCount(p))`. */
  lemma {:induction false} AssignedIdsRange(p: seq<LinkUpsert>, next: int)
    ensures forall j :: 0 <= j < |p| && p[j].id.None? ==>
              next <= AssignedIds(p, next)[j] < next + NewCount(p)
    ensures forall j :: 0 <= j < |p| && p[j].id.Some? ==> AssignedIds(p, next)[j] == p[j].id.value
  {
    if p != [] {
      AssignedIdsRange(p[1..], if p[0].id.None? then next + 1 else next);
      var a := AssignedIds(p, next);
      forall j | 1 <= j < |p|
        ensures p[j].id.None? ==> next <= a[j] < next + NewCount(p)
        ensures p[j].id.Some? ==> a[j] == p[j].id.value
      {
        assert p[1..][j - 1] == p[j];
      }
    }
  }

  /** The fresh ids are handed out strictly increasing in payload order. */
  lemma {:induction false} AssignedIdsFreshOrder(p: seq<LinkUpsert>, next: int)
    ensures forall i, j :: 0 <= i < j < |p| && p[i].id.None? && p[j].id.None? ==>
              AssignedIds(p, next)[i] < AssignedIds(p, next)[j]
  {
    if p != [] {
      var n' := if p[0].id.None? then next + 1 else next;
      AssignedIdsFreshOrder(p[1..], n');
      AssignedIdsRange(p[1..], n');
      var a := AssignedIds(p, next);
      forall i, j | 0 <= i < j < |p| && p[i].id.None? && p[j].id.None?
        ensures a[i] < a[j]
      {
        assert p[1..][j - 1] == p[j];
        if i > 0 {
          assert p[1..][i - 1] == p[i];
        }
      }
    }
  }

  /** Under distinct ids below `next`, every entry ends up under its own id. */
  lemma AssignedIdsDistinct(p: seq<LinkUpsert>, next: int)
    requires DistinctIds(p) && IdsBelow(p, next)
    ensures forall i, j :: 0 <= i < j < |p| ==> AssignedIds(p, next)[i] != AssignedIds(p, next)[j]
  {
    AssignedIdsRange(p, next);
    AssignedIdsFreshOrder(p, next);
  }

  /** One step of the bulk upsert: the first entry goes under the first assigned id. */
  lemma AssignedIdsStep(db: Db, p: seq<LinkUpsert>)
    requires p != []
    ensures var db1 := UpsertOne(db, p[0]);
      && AssignedIds(p, db.nextId) == [AssignedIds(p, db.nextId)[0]] + AssignedIds(p[1..], db1.nextId)
      && db1.links == db.links[AssignedIds(p, db.nextId)[0] := RowOf(p[0])]
      && UpsertAll(db, p) == UpsertAll(db1, p[1..])
  {
  }

  /** The bulk upsert adds exactly the assigned ids to the table's keys. */
  lemma {:induction false} UpsertAllKeys(db: Db, p: seq<LinkUpsert>)
    ensures UpsertAll(db, p).links.Keys == db.links.Keys + (set x | x in AssignedIds(p, db.nextId))
    decreases |p|
  {
    if p != [] {
      var db1 := UpsertOne(db, p[0]);
      AssignedIdsStep(db, p);
      UpsertAllKeys(db1, p[1..]);
      var a := AssignedIds(p, db.nextId);
      var a' := AssignedIds(p[1..], db1.nextId);
      assert (set x | x in a) == {a[0]} + (set x | x in a');
    }
  }

  /** The bulk upsert leaves every row whose id is not assigned as it was. */
  lemma {:induction false} UpsertAllKeeps(db: Db, p: seq<LinkUpsert>)
    ensures forall k :: k in db.links && k !in AssignedIds(p, db.nextId) ==>
              k in UpsertAll(db, p).links && UpsertAll(db, p).links[k] == db.links[k]
    decreases |p|
  {
    if p != [] {
      var db1 := UpsertOne(db, p[0]);
      AssignedIdsStep(db, p);
      UpsertAllKeeps(db1, p[1..]);
    }
  }

  /** The tail of a payload keeps the distinct-ids and ids-below conditions. */
  lemma TailConditions(db: Db, p: seq<LinkUpsert>)
    requires p != [] && DistinctIds(p) && IdsBelow(p, db.nextId)
    ensures DistinctIds(p[1..]) && IdsBelow(p[1..], UpsertOne(db, p[0]).nextId)
  {
    var p' := p[1..];
    forall i, j | 0 <= i < j < |p'| && p'[i].id.Some? && p'[j].id.Some?
      ensures p'[i].id != p'[j].id
    {
      assert p'[i] == p[i + 1] && p'[j] == p[j + 1];
    }
    forall j | 0 <= j < |p'| && p'[j].id.Some?
      ensures p'[j].id.value < UpsertOne(db, p[0]).nextId
    {
      assert p'[j] == p[j + 1];
    }
  }

  /** Under distinct ids below `nextId`, every entry's row ends up under its assigned id. */
  lemma {:induction false} UpsertAllStores(db: Db, p: seq<LinkUpsert>)
    requires DistinctIds(p) && IdsBelow(p, db.nextId)
    ensures forall j :: 0 <= j < |p| ==>
              AssignedIds(p, db.nextId)[j] in UpsertAll(db, p).links &&
              UpsertAll(db, p).links[AssignedIds(p, db.nextId)[j]] == RowOf(p[j])
    decreases |p|
  {
    if p != [] {
      var db1 := UpsertOne(db, p[0]);
      var r := UpsertAll(db, p);
      var a := AssignedIds(p, db.nextId);
      var a' := AssignedIds(p[1..], db1.nextId);
      AssignedIdsStep(db, p);
      TailConditions(db, p);
      UpsertAllStores(db1, p[1..]);
      AssignedIdsDistinct(p, db.nextId);
      assert a[0] !in a' by {
        forall m | 0 <= m < |a'| ensures a'[m] != a[0] {
          assert a'[m] == a[m + 1];
        }
      }
      UpsertAllKeeps(db1, p[1..]);
      forall j | 1 <= j < |p|
        ensures a[j] in r.links && r.links[a[j]] == RowOf(p[j])
      {
        assert a[j] == a'[j - 1] && p[j] == p[1..][j - 1];
      }
    }
  }

  /**
   What the bulk upsert does, when the ids it carries are distinct and were
   handed out before: every entry's row is stored under its assigned id, the
   other rows are untouched, and nothing else is added.
   */
  lemma UpsertAllEffect(db: Db, p: seq<LinkUpsert>)
    requires DistinctIds(p) && IdsBelow(p, db.nextId)
    ensures var r := UpsertAll(db, p); var a := AssignedIds(p, db.nextId);
      && r.links.Keys == db.links.Keys + (set x | x in a)
      && (forall j :: 0 <= j < |p| ==> r.links[a[j]] == RowOf(p[j]))
      && (forall k :: k in db.links && k !in a ==> r.links[k] == db.links[k])
  {
    UpsertAllKeys(db, p);
    UpsertAllKeeps(db, p);
    UpsertAllStores(db, p);
  }

  /** `delete().in('id', ids)` on `release_links`. */
  function DeleteLinksIn(db: Db, ids: seq<int>, fail: bool): (r: Db)
    ensures fail ==> r == db
    ensures !fail ==> forall k :: k in ids ==> k !in r.links
    ensures forall k :: k in r.links ==> k in db.links && r.links[k] == db.links[k]
    ensures forall k :: k in db.links && k !in ids ==> k in r.links
    ensures r.shows == db.shows && r.releases == db.releases && r.nextId == db.nextId
  {
    if fail then db
    else db.(links := db.links - set k | k in ids)
  }

  /** The ids of the `release_links` rows that belong to release `rid`. */
  function LinksOf(db: Db, rid: int): set<int> {
    set k | k in db.links && db.links[k].releaseId == rid
  }
}
