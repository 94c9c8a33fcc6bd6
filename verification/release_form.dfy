/**
 The release form of components/AdminPanel.tsx: the form-local list of links
 (`addLink`, `removeLink`, `handleLinkChange`), the upsert payload, the ids
 of removed links, and `handleSubmit`, which writes the release, upserts its
 links and deletes the links removed in the form.
 */
module ReleaseForm {
  import opened Content
  import opened Store
  import opened AdminPanel

  /** A link as the form holds it: links added in the form have no id yet. */
  datatype FormLink = FormLink(id: Option<int>, platform: string, url: string)

  function FromLink(l: Link): FormLink {
    FormLink(Some(l.id), l.platform, l.url)
  }

  /** The ids of the release's links as loaded, or none for a new release. */
  function OriginalIds(release: Option<Release>): seq<int> {
    match release
    case Some(rel) => LinkIds(rel.links)
    case None => []
  }

  /** `release?.release_links || []`, as form links. */
  function InitLinks(release: Option<Release>): (links: seq<FormLink>)
    ensures |links| == |OriginalIds(release)|
    ensures forall j :: 0 <= j < |links| ==> links[j].id == Some(OriginalIds(release)[j])
    ensures release.Some? ==> forall j :: 0 <= j < |links| ==> links[j] == FromLink(release.value.links[j])
    ensures release.None? ==> links == []
  {
    match release
    case Some(rel) => seq(|rel.links|, j requires 0 <= j < |rel.links| => FromLink(rel.links[j]))
    case None => []
  }

  /** `{ title: '', image_url: '', ...release }` restricted to the columns the form writes. */
  function InitReleaseForm(release: Option<Release>): (f: ReleaseFields)
    ensures release.Some? ==> f == release.value.fields
    ensures release.None? ==> f == ReleaseFields("", "")
  {
    match release
    case Some(rel) => rel.fields
    case None => ReleaseFields("", "")
  }

  datatype ReleaseField = TitleField | ImageUrlField

  /** `handleChange` of the release form. */
  function ChangeReleaseField(f: ReleaseFields, field: ReleaseField, value: string): (r: ReleaseFields)
    ensures field == TitleField ==> r.title == value && r.imageUrl == f.imageUrl
    ensures field == ImageUrlField ==> r.imageUrl == value && r.title == f.title
  {
    match field
    case TitleField => f.(title := value)
    case ImageUrlField => f.(imageUrl := value)
  }

  // --------------------------------------------------------- link editing

  /** The link `addLink` appends. */
  const NewLink := FormLink(None, "spotify", "")

  /** `addLink`: exactly one new, id-less Spotify link at the end. */
  function AddLink(links: seq<FormLink>): (r: seq<FormLink>)
    ensures |r| == |links| + 1
    ensures r[..|links|] == links && r[|links|] == NewLink
  {
    links + [NewLink]
  }

  /**
   `removeLink(i)`: `links.filter((_, k) => k !== i)`. Only position `i` goes,
   the others keep their order; an index outside the list removes nothing.
   */
  function RemoveLink(links: seq<FormLink>, i: int): (r: seq<FormLink>)
    ensures 0 <= i < |links| ==> |r| == |links| - 1
    ensures 0 <= i < |links| ==> forall k :: 0 <= k < i ==> r[k] == links[k]
    ensures 0 <= i < |links| ==> forall k :: i <= k < |r| ==> r[k] == links[k + 1]
    ensures !(0 <= i < |links|) ==> r == links
  {
    if 0 <= i < |links| then links[..i] + links[i + 1..] else links
  }

  /** Removing the link just added gives back the list as it was. */
  lemma RemoveUndoesAdd(links: seq<FormLink>)
    ensures RemoveLink(AddLink(links), |links|) == links
  {
  }

  datatype LinkField = PlatformField | UrlField

  /**
   `handleLinkChange(i, field, value)`: the link at `i` gets the new platform
   or URL; every other link, and every id, stays as it was. The source
   assumes `i` names a rendered link (it throws otherwise).
   */
  function ChangeLink(links: seq<FormLink>, i: int, field: LinkField, value: string): (r: seq<FormLink>)
    requires 0 <= i < |links|
    ensures |r| == |links|
    ensures forall k :: 0 <= k < |links| && k != i ==> r[k] == links[k]
    ensures r[i].id == links[i].id
    ensures field == PlatformField ==> r[i].platform == value && r[i].url == links[i].url
    ensures field == UrlField ==> r[i].url == value && r[i].platform == links[i].platform
  {
    match field
    case PlatformField => links[i := links[i].(platform := value)]
    case UrlField => links[i := links[i].(url := value)]
  }

  /** One user action on the link list. */
  datatype LinkEdit = Append | Remove(i: int) | Change(i: int, field: LinkField, value: string)

  /** A link-list action; a change names a rendered row, so one outside the list never occurs and is skipped. */
  function ApplyEdit(links: seq<FormLink>, e: LinkEdit): seq<FormLink> {
    match e
    case Append => AddLink(links)
    case Remove(i) => RemoveLink(links, i)
    case Change(i, field, value) => if 0 <= i < |links| then ChangeLink(links, i, field, value) else links
  }

  function ApplyEdits(links: seq<FormLink>, es: seq<LinkEdit>): seq<FormLink>
    decreases |es|
  {
    if es == [] then links else ApplyEdits(ApplyEdit(links, es[0]), es[1..])
  }

  /**
   What the form can hold: the ids present name different links, and each
   is the id of one of the release's original links (the form never makes
   up an id).
   */
  ghost predicate FormInvariant(links: seq<FormLink>, original: seq<int>) {
    && (forall i, j :: 0 <= i < j < |links| && links[i].id.Some? && links[j].id.Some? ==> links[i].id != links[j].id)
    && (forall j :: 0 <= j < |links| && links[j].id.Some? ==> links[j].id.value in original)
  }

  ghost predicate Distinct(s: seq<int>) {
    forall i, j :: 0 <= i < j < |s| ==> s[i] != s[j]
  }

  lemma InitEstablishesInvariant(release: Option<Release>)
    requires Distinct(OriginalIds(release))
    ensures FormInvariant(InitLinks(release), OriginalIds(release))
  {
  }

  lemma EditPreservesInvariant(links: seq<FormLink>, original: seq<int>, e: LinkEdit)
    requires FormInvariant(links, original)
    ensures FormInvariant(ApplyEdit(links, e), original)
  {
    match e
    case Append =>
    case Remove(i) =>
      var r := ApplyEdit(links, e);
      if 0 <= i < |links| {
        forall a, b | 0 <= a < b < |r| && r[a].id.Some? && r[b].id.Some?
          ensures r[a].id != r[b].id
        {
          var a' := if a < i then a else a + 1;
          var b' := if b < i then b else b + 1;
          assert r[a] == links[a'] && r[b] == links[b'];
        }
        forall a | 0 <= a < |r| && r[a].id.Some?
          ensures r[a].id.value in original
        {
          assert r[a] == links[if a < i then a else a + 1];
        }
      }
    case Change(i, field, value) =>
  }

  /** No sequence of add, remove and change actions breaks the form invariant. */
  lemma {:induction false} EditsPreserveInvariant(links: seq<FormLink>, original: seq<int>, es: seq<LinkEdit>)
    requires FormInvariant(links, original)
    ensures FormInvariant(ApplyEdits(links, es), original)
    decreases |es|
  {
    if es != [] {
      EditPreservesInvariant(links, original, es[0]);
      EditsPreserveInvariant(ApplyEdit(links, es[0]), original, es[1..]);
    }
  }

  // ----------------------------------------------------- payload and diff

  /**
   `linksToUpsert`: one entry per form link, in form order, keeping its id,
   platform and URL and pointing it at the saved release.
   */
  function UpsertPayload(links: seq<FormLink>, rid: int): (p: seq<LinkUpsert>)
    ensures |p| == |links|
    ensures forall j :: 0 <= j < |links| ==> p[j].releaseId == rid
    ensures forall j :: 0 <= j < |links| ==> FormOf(p[j]) == links[j]
  {
    seq(|links|, j requires 0 <= j < |links| => LinkUpsert(links[j].id, rid, links[j].platform, links[j].url))
  }

  /** The form link an upsert entry carries. */
  function FormOf(u: LinkUpsert): FormLink {
    FormLink(u.id, u.platform, u.url)
  }

  /** `links.map(l => l.id).filter(Boolean)`: the ids present and non-zero, in form order. */
  function TruthyIds(links: seq<FormLink>): (ids: seq<int>)
    ensures forall x :: x in ids <==> Truthy(x) && exists j :: 0 <= j < |links| && links[j].id == Some(x)
    ensures |ids| <= |links|
  {
    if links == [] then []
    else
      var rest := TruthyIds(links[1..]);
      assert forall x :: (exists j :: 0 <= j < |links[1..]| && links[1..][j].id == Some(x)) <==>
                         (exists j :: 1 <= j < |links| && links[j].id == Some(x)) by {
        forall x, j | 1 <= j < |links| && links[j].id == Some(x)
          ensures links[1..][j - 1].id == Some(x)
        {
        }
      }
      match links[0].id
      case Some(x) => if Truthy(x) then [x] + rest else rest
      case None => rest
  }

  /**
   `linksToDelete`: the original ids the form no longer holds (by truthy id),
   in original order.
   */
  function IdsToDelete(original: seq<int>, links: seq<FormLink>): (del: seq<int>)
    ensures forall x :: x in del <==> x in original && x !in TruthyIds(links)
    ensures |del| <= |original|
  {
    if original == [] then []
    else
      var rest := IdsToDelete(original[1..], links);
      assert forall x :: x in original <==> x == original[0] || x in original[1..];
      if original[0] !in TruthyIds(links) then [original[0]] + rest else rest
  }

  /**
   The diff is a filter: it distributes over concatenation of the original
   list, so it keeps the original order and multiplicity.
   */
  lemma {:induction false} IdsToDeleteAppend(a: seq<int>, b: seq<int>, links: seq<FormLink>)
    ensures IdsToDelete(a + b, links) == IdsToDelete(a, links) + IdsToDelete(b, links)
    decreases |a|
  {
    if a != [] {
      assert (a + b)[0] == a[0] && (a + b)[1..] == a[1..] + b;
      IdsToDeleteAppend(a[1..], b, links);
    } else {
      assert a + b == b;
    }
  }

  /** A new release has no original links, so nothing is deleted. */
  lemma NewReleaseDeletesNothing(links: seq<FormLink>)
    ensures IdsToDelete(OriginalIds(None), links) == []
  {
  }

  /**
   `filter(Boolean)` also drops an id of 0: a form link kept under id 0 is
   upserted and yet still scheduled for deletion.
   */
  lemma ZeroIdScheduledForDeletion(original: seq<int>, links: seq<FormLink>, j: int)
    requires 0 <= j < |links| && links[j].id == Some(0) && 0 in original
    ensures 0 in IdsToDelete(original, links)
    ensures UpsertPayload(links, 1)[j].id == Some(0)
  {
  }

  // -------------------------------------------------------- handleSubmit

  /** The calls `handleSubmit` makes, in order: remote requests and the `onSave` callback. */
  datatype Call =
    | WriteRelease(target: Option<int>, fields: ReleaseFields)
    | UpsertLinks(payload: seq<LinkUpsert>)
    | DeleteLinks(ids: seq<int>)
    | OnSave(saved: SavedRelease)

  /** Which of the three remote calls the service rejects. */
  datatype Faults = Faults(write: bool, upsert: bool, delete: bool)

  /** The database after a submit and the calls made on the way. */
  datatype SaveRun = SaveRun(db: Db, calls: seq<Call>)

  predicate IsUpdate(release: Option<Release>) {
    release.Some? && Truthy(release.value.id)
  }

  /** The release write goes through: not rejected, and an updated release still exists. */
  predicate WriteAccepted(release: Option<Release>, db: Db, fail: bool) {
    !fail && (IsUpdate(release) ==> release.value.id in db.releases)
  }

  /** The id the saved release has: the edited one's, or the next fresh id. */
  function SavedId(release: Option<Release>, db: Db): int {
    if IsUpdate(release) then release.value.id else db.nextId
  }

  /** The id generator's position once the release write went through. */
  function NextAfterWrite(release: Option<Release>, db: Db): int {
    if IsUpdate(release) then db.nextId else db.nextId + 1
  }

  /** `onSave` ran, as the last call of the run. */
  predicate Saved(r: SaveRun) {
    |r.calls| > 0 && r.calls[|r.calls| - 1].OnSave?
  }

  predicate DeleteIssued(r: SaveRun) {
    exists i :: 0 <= i < |r.calls| && r.calls[i].DeleteLinks?
  }

  /**
   `ReleaseForm.handleSubmit`: update (truthy id) or insert the release; on
   success upsert the form's links against the saved id; on success compute
   the removed ids, delete them when there are any, and call `onSave`. A
   rejected write or upsert ends the run there (the thrown error is caught and
   logged), and an earlier write is not undone; the delete's own error is not
   checked.
   */
  function SubmitRelease(release: Option<Release>, fields: ReleaseFields, links: seq<FormLink>,
                         db: Db, faults: Faults): (r: SaveRun)
    ensures |r.calls| >= 1
    ensures r.calls[0] == WriteRelease(if IsUpdate(release) then Some(release.value.id) else None, fields)
    ensures !WriteAccepted(release, db, faults.write) ==> r.db == db && |r.calls| == 1
    ensures WriteAccepted(release, db, faults.write) ==>
              |r.calls| >= 2 && r.calls[1] == UpsertLinks(UpsertPayload(links, SavedId(release, db)))
    ensures WriteAccepted(release, db, faults.write) && faults.upsert ==>
              && |r.calls| == 2
              && r.db.releases == db.releases[SavedId(release, db) := fields]
              && r.db.links == db.links
    ensures Saved(r) <==> WriteAccepted(release, db, faults.write) && !faults.upsert
    ensures Saved(r) ==> r.calls[|r.calls| - 1] == OnSave(SavedRelease(SavedId(release, db), fields))
    ensures Saved(r) ==> |r.calls| == (if |IdsToDelete(OriginalIds(release), links)| > 0 then 4 else 3)
    ensures WriteAccepted(release, db, faults.write) && faults.upsert ==> r.db == Written(release, fields, db)
    ensures Saved(r) && faults.delete ==> r.db == UpsertAll(Written(release, fields, db), UpsertPayload(links, SavedId(release, db)))
    ensures DeleteIssued(r) <==> Saved(r) && |IdsToDelete(OriginalIds(release), links)| > 0
    ensures DeleteIssued(r) ==> r.calls[2] == DeleteLinks(IdsToDelete(OriginalIds(release), links))
  {
    var update := IsUpdate(release);
    var reply := if update then UpdateRelease(db, release.value.id, fields, faults.write)
                 else InsertRelease(db, fields, faults.write);
    var c1 := [WriteRelease(if update then Some(release.value.id) else None, fields)];
    match reply
    case Rejected => SaveRun(db, c1)
    case Row(db1, saved) =>
      var payload := UpsertPayload(links, saved.id);
      var c2 := c1 + [UpsertLinks(payload)];
      if faults.upsert then SaveRun(db1, c2)
      else
        var db2 := UpsertAll(db1, payload);
        var del := IdsToDelete(OriginalIds(release), links);
        if |del| > 0 then
          var calls := c2 + [DeleteLinks(del), OnSave(saved)];
          assert calls[2].DeleteLinks?;
          SaveRun(DeleteLinksIn(db2, del, faults.delete), calls)
        else SaveRun(db2, c2 + [OnSave(saved)])
  }

  // ------------------------------------------------------ reconciliation

  /**
   The release the form was opened with agrees with the store: a stored id,
   distinct link ids, and exactly the links the store holds for it.
   */
  ghost predicate Snapshot(db: Db, release: Option<Release>) {
    release.Some? ==>
      && release.value.id >= 1
      && Distinct(OriginalIds(release))
      && (set x | x in OriginalIds(release)) == LinksOf(db, release.value.id)
  }

  /** The payload built from an invariant form satisfies the upsert's conditions. */
  lemma PayloadConditions(links: seq<FormLink>, original: seq<int>, rid: int, next: int)
    requires FormInvariant(links, original)
    requires forall x :: x in original ==> x < next
    ensures DistinctIds(UpsertPayload(links, rid)) && IdsBelow(UpsertPayload(links, rid), next)
  {
    var p := UpsertPayload(links, rid);
    forall j | 0 <= j < |p| ensures p[j].id == links[j].id {
      assert FormOf(p[j]) == links[j];
    }
  }

  /** Every truthy form id is one of the assigned ids. */
  lemma TruthyIdsAssigned(links: seq<FormLink>, rid: int, next: int)
    ensures forall x :: x in TruthyIds(links) ==> x in AssignedIds(UpsertPayload(links, rid), next)
  {
    var p := UpsertPayload(links, rid);
    var a := AssignedIds(p, next);
    AssignedIdsRange(p, next);
    forall x | x in TruthyIds(links) ensures x in a {
      var j :| 0 <= j < |links| && links[j].id == Some(x);
      assert FormOf(p[j]) == links[j];
      assert a[j] == x;
    }
  }

  /**
   The links an upsert assigns are never among the ids scheduled for
   deletion: a kept id is truthy (ids start at 1) and a fresh id is newer than
   every original one.
   */
  lemma AssignedNotDeleted(links: seq<FormLink>, original: seq<int>, rid: int, next: int)
    requires FormInvariant(links, original)
    requires forall x :: x in original ==> 1 <= x < next
    ensures forall j :: 0 <= j < |links| ==>
              AssignedIds(UpsertPayload(links, rid), next)[j] !in IdsToDelete(original, links)
  {
    var p := UpsertPayload(links, rid);
    var a := AssignedIds(p, next);
    AssignedIdsRange(p, next);
    forall j | 0 <= j < |links| ensures a[j] !in IdsToDelete(original, links) {
      assert FormOf(p[j]) == links[j];
      if links[j].id.Some? {
        assert links[j].id.value in original;
        assert a[j] in TruthyIds(links);
      }
    }
  }

  /** The store once the release write went through. */
  function Written(release: Option<Release>, fields: ReleaseFields, db: Db): Db {
    db.(releases := db.releases[SavedId(release, db) := fields], nextId := NextAfterWrite(release, db))
  }

  /** The conditions under which a fully successful save reconciles the links. */
  ghost predicate Premises(release: Option<Release>, links: seq<FormLink>, db: Db, faults: Faults) {
    && Valid(db) && Snapshot(db, release)
    && FormInvariant(links, OriginalIds(release))
    && WriteAccepted(release, db, faults.write) && !faults.upsert && !faults.delete
  }

  /** A fully successful save: the write, then the upsert, then the removal of the deleted ids. */
  lemma SubmitReleaseResult(release: Option<Release>, fields: ReleaseFields, links: seq<FormLink>,
                            db: Db, faults: Faults)
    requires WriteAccepted(release, db, faults.write) && !faults.upsert && !faults.delete
    ensures var r := SubmitRelease(release, fields, links, db, faults);
      var up := UpsertAll(Written(release, fields, db), UpsertPayload(links, SavedId(release, db)));
      && Saved(r)
      && r.db == up.(links := up.links - (set k | k in IdsToDelete(OriginalIds(release), links)))
  {
  }

  /** The original ids are the stored links of the saved release, all handed out before the write. */
  lemma OriginalsStored(release: Option<Release>, links: seq<FormLink>, db: Db, faults: Faults)
    requires Premises(release, links, db, faults)
    ensures forall x :: x in OriginalIds(release) ==>
              x in LinksOf(db, SavedId(release, db)) && 1 <= x < db.nextId
    ensures forall k :: k in LinksOf(db, SavedId(release, db)) ==> k in OriginalIds(release)
  {
    var original := OriginalIds(release);
    var rid := SavedId(release, db);
    if release.Some? {
      forall x | x in original ensures x in LinksOf(db, rid) {
        assert x in (set y | y in original);
      }
      forall k | k in LinksOf(db, rid) ensures k in original {
        assert k in (set y | y in original);
      }
    } else {
      forall k | k in db.links ensures db.links[k].releaseId != rid {
      }
    }
  }

  /** Facts about the upsert of a reconciling save, gathered in one place. */
  lemma UpsertFacts(release: Option<Release>, fields: ReleaseFields, links: seq<FormLink>, db: Db, faults: Faults)
    requires Premises(release, links, db, faults)
    ensures var W := Written(release, fields, db);
      var p := UpsertPayload(links, SavedId(release, db));
      var a := AssignedIds(p, W.nextId);
      var up := UpsertAll(W, p);
      var del := IdsToDelete(OriginalIds(release), links);
      && W.links == db.links && W.nextId >= db.nextId
      && up.links.Keys == db.links.Keys + (set x | x in a)
      && (forall j :: 0 <= j < |links| ==> up.links[a[j]] == LinkRow(SavedId(release, db), links[j].platform, links[j].url))
      && (forall k :: k in db.links && k !in a ==> up.links[k] == db.links[k])
      && Distinct(a)
      && (forall j :: 0 <= j < |links| ==> a[j] !in del)
      && (forall x :: x in TruthyIds(links) ==> x in a)
      && (forall j :: 0 <= j < |links| && links[j].id.Some? ==> a[j] == links[j].id.value)
      && (forall j :: 0 <= j < |links| && links[j].id.None? ==> W.nextId <= a[j] < up.nextId)
  {
    var W := Written(release, fields, db);
    var rid := SavedId(release, db);
    var original := OriginalIds(release);
    var p := UpsertPayload(links, rid);
    OriginalsStored(release, links, db, faults);
    PayloadConditions(links, original, rid, W.nextId);
    UpsertAllEffect(W, p);
    AssignedIdsDistinct(p, W.nextId);
    AssignedIdsRange(p, W.nextId);
    AssignedNotDeleted(links, original, rid, W.nextId);
    TruthyIdsAssigned(links, rid, W.nextId);
    forall j | 0 <= j < |links| ensures RowOf(p[j]) == LinkRow(rid, links[j].platform, links[j].url) && p[j].id == links[j].id {
      assert FormOf(p[j]) == links[j];
    }
  }

  /** After the save, the saved release's links are exactly the assigned ids. */
  lemma ReconcileExactSet(release: Option<Release>, fields: ReleaseFields, links: seq<FormLink>, db: Db, faults: Faults)
    requires Premises(release, links, db, faults)
    ensures var rid := SavedId(release, db);
      var a := AssignedIds(UpsertPayload(links, rid), NextAfterWrite(release, db));
      LinksOf(SubmitRelease(release, fields, links, db, faults).db, rid) == (set x | x in a)
  {
    var r := SubmitRelease(release, fields, links, db, faults);
    var rid := SavedId(release, db);
    var a := AssignedIds(UpsertPayload(links, rid), NextAfterWrite(release, db));
    var del := IdsToDelete(OriginalIds(release), links);
    SubmitReleaseResult(release, fields, links, db, faults);
    UpsertFacts(release, fields, links, db, faults);
    OriginalsStored(release, links, db, faults);
    forall k | k in db.links && k !in a && db.links[k].releaseId == rid
      ensures k !in r.db.links
    {
      assert k in LinksOf(db, rid);
      assert k in del;
    }
    var up := UpsertAll(Written(release, fields, db), UpsertPayload(links, rid));
    forall k | k in LinksOf(r.db, rid) ensures k in a {
      assert k in up.links && r.db.links[k] == up.links[k];
      assert k in a || k in db.links;
    }
    forall k | k in a ensures k in LinksOf(r.db, rid) {
      var j :| 0 <= j < |a| && a[j] == k;
      assert r.db.links[k] == LinkRow(rid, links[j].platform, links[j].url);
    }
  }

  /** After the save, the links of every other release are as they were. */
  lemma ReconcileOthersUntouched(release: Option<Release>, fields: ReleaseFields, links: seq<FormLink>, db: Db, faults: Faults)
    requires Premises(release, links, db, faults)
    ensures var r := SubmitRelease(release, fields, links, db, faults);
      forall k :: k in db.links && db.links[k].releaseId != SavedId(release, db) ==>
        k in r.db.links && r.db.links[k] == db.links[k]
  {
    var r := SubmitRelease(release, fields, links, db, faults);
    var rid := SavedId(release, db);
    var a := AssignedIds(UpsertPayload(links, rid), NextAfterWrite(release, db));
    var del := IdsToDelete(OriginalIds(release), links);
    SubmitReleaseResult(release, fields, links, db, faults);
    UpsertFacts(release, fields, links, db, faults);
    OriginalsStored(release, links, db, faults);
    forall j | 0 <= j < |links| && a[j] in db.links
      ensures db.links[a[j]].releaseId == rid
    {
      if links[j].id.Some? {
        assert a[j] in OriginalIds(release);
      }
    }
    forall k | k in db.links && db.links[k].releaseId != rid
      ensures k in r.db.links && r.db.links[k] == db.links[k]
    {
      assert k !in a;
      assert k !in LinksOf(db, rid);
      assert k !in del;
    }
  }

  /** The store after the release write keeps its id bounds, and the saved id lies below them. */
  lemma WrittenValid(release: Option<Release>, fields: ReleaseFields, links: seq<FormLink>, db: Db, faults: Faults)
    requires Premises(release, links, db, faults)
    ensures Valid(Written(release, fields, db)) && SavedId(release, db) in Written(release, fields, db).releases
  {
  }

  /** An upsert that only adds or rewrites links of a stored release, under ids below the new bound, keeps the bounds. */
  lemma UpsertValid(w: Db, up: Db, a: seq<int>, rid: int)
    requires Valid(w) && rid in w.releases
    requires up.shows == w.shows && up.releases == w.releases && up.nextId >= w.nextId
    requires up.links.Keys == w.links.Keys + (set x | x in a)
    requires forall k :: k in w.links && k !in a ==> up.links[k] == w.links[k]
    requires forall j :: 0 <= j < |a| ==> 1 <= a[j] < up.nextId && a[j] in up.links && up.links[a[j]].releaseId == rid
    ensures Valid(up)
  {
    forall k | k in up.links ensures 1 <= k < up.nextId && up.links[k].releaseId < up.nextId {
      if k in a {
        var j :| 0 <= j < |a| && a[j] == k;
      }
    }
  }

  /** Each id the upsert of a reconciling save assigns lies in `[1, nextId)` and now holds a link of the saved release. */
  lemma AssignedBounds(release: Option<Release>, fields: ReleaseFields, links: seq<FormLink>, db: Db, faults: Faults)
    requires Premises(release, links, db, faults)
    ensures var W := Written(release, fields, db);
      var p := UpsertPayload(links, SavedId(release, db));
      var a := AssignedIds(p, W.nextId);
      var up := UpsertAll(W, p);
      forall j :: 0 <= j < |a| ==> 1 <= a[j] < up.nextId && a[j] in up.links && up.links[a[j]].releaseId == SavedId(release, db)
  {
    var W := Written(release, fields, db);
    var p := UpsertPayload(links, SavedId(release, db));
    var a := AssignedIds(p, W.nextId);
    UpsertFacts(release, fields, links, db, faults);
    OriginalsStored(release, links, db, faults);
    forall j | 0 <= j < |a| ensures 1 <= a[j] < UpsertAll(W, p).nextId {
      if links[j].id.Some? {
        assert a[j] in OriginalIds(release);
      }
    }
  }

  /** The upsert of a reconciling save keeps the store's id bounds. */
  lemma UpsertKeepsValid(release: Option<Release>, fields: ReleaseFields, links: seq<FormLink>, db: Db, faults: Faults)
    requires Premises(release, links, db, faults)
    ensures Valid(UpsertAll(Written(release, fields, db), UpsertPayload(links, SavedId(release, db))))
  {
    var W := Written(release, fields, db);
    var p := UpsertPayload(links, SavedId(release, db));
    WrittenValid(release, fields, links, db, faults);
    UpsertFacts(release, fields, links, db, faults);
    AssignedBounds(release, fields, links, db, faults);
    UpsertValid(W, UpsertAll(W, p), AssignedIds(p, W.nextId), SavedId(release, db));
  }

  /** Removing link rows keeps the store's id bounds. */
  lemma RemovalKeepsValid(d: Db, ids: set<int>)
    requires Valid(d)
    ensures Valid(d.(links := d.links - ids))
  {
  }

  /** The save keeps the store's id bounds. */
  lemma ReconcileValid(release: Option<Release>, fields: ReleaseFields, links: seq<FormLink>, db: Db, faults: Faults)
    requires Premises(release, links, db, faults)
    ensures Valid(SubmitRelease(release, fields, links, db, faults).db)
  {
    var up := UpsertAll(Written(release, fields, db), UpsertPayload(links, SavedId(release, db)));
    SubmitReleaseResult(release, fields, links, db, faults);
    UpsertKeepsValid(release, fields, links, db, faults);
    RemovalKeepsValid(up, set k | k in IdsToDelete(OriginalIds(release), links));
  }

  /**
   After a save in which every call goes through, the links the store holds
   for the saved release are exactly the submitted ones: one row per form
   link, in a one-to-one match, carrying its platform and URL; every original
   link removed in the form is gone; the links of other releases are
   untouched; and the store keeps its id bounds.
   */
  lemma {:induction false} ReleaseSaveReconciles(release: Option<Release>, fields: ReleaseFields, links: seq<FormLink>,
                              db: Db, faults: Faults)
    requires Valid(db) && Snapshot(db, release)
    requires FormInvariant(links, OriginalIds(release))
    requires WriteAccepted(release, db, faults.write) && !faults.upsert && !faults.delete
    ensures var r := SubmitRelease(release, fields, links, db, faults);
      var rid := SavedId(release, db);
      var a := AssignedIds(UpsertPayload(links, rid), NextAfterWrite(release, db));
      && Saved(r)
      && Valid(r.db)
      && rid in r.db.releases && r.db.releases[rid] == fields
      && LinksOf(r.db, rid) == (set x | x in a)
      && Distinct(a)
      && (forall j :: 0 <= j < |links| ==>
            a[j] in r.db.links && r.db.links[a[j]] == LinkRow(rid, links[j].platform, links[j].url))
      && (forall x :: x in OriginalIds(release) && x !in TruthyIds(links) ==> x !in r.db.links)
      && (forall k :: k in db.links && db.links[k].releaseId != rid ==> k in r.db.links && r.db.links[k] == db.links[k])
  {
    var r := SubmitRelease(release, fields, links, db, faults);
    var rid := SavedId(release, db);
    var a := AssignedIds(UpsertPayload(links, rid), NextAfterWrite(release, db));
    var del := IdsToDelete(OriginalIds(release), links);
    SubmitReleaseResult(release, fields, links, db, faults);
    UpsertFacts(release, fields, links, db, faults);
    ReconcileExactSet(release, fields, links, db, faults);
    ReconcileOthersUntouched(release, fields, links, db, faults);
    ReconcileValid(release, fields, links, db, faults);
    forall j | 0 <= j < |links|
      ensures a[j] in r.db.links && r.db.links[a[j]] == LinkRow(rid, links[j].platform, links[j].url)
    {
      assert a[j] !in del;
    }
  }

  /** The upsert step of the example below, followed by the removal of link 2. */
  lemma ExampleUpsert(db: Db)
    requires db.links == map[1 := LinkRow(1, "spotify", "a"), 2 := LinkRow(1, "apple", "b")] && db.nextId == 3
    ensures UpsertAll(db, [LinkUpsert(Some(1), 1, "spotify", "new"), LinkUpsert(None, 1, "spotify", "")]).links - {2}
            == map[1 := LinkRow(1, "spotify", "new"), 3 := LinkRow(1, "spotify", "")]
  {
    var p := [LinkUpsert(Some(1), 1, "spotify", "new"), LinkUpsert(None, 1, "spotify", "")];
    var db1 := UpsertOne(db, p[0]);
    var db2 := UpsertOne(db1, p[1]);
    assert p[1..][0] == p[1] && p[1..][1..] == [];
    assert UpsertAll(db1, p[1..]) == UpsertAll(db2, []) == db2;
    assert db2.links == map[1 := LinkRow(1, "spotify", "new"), 2 := LinkRow(1, "apple", "b"), 3 := LinkRow(1, "spotify", "")];
  }

  /** The payload and the diff of the example below. */
  lemma ExampleDiff(fields: ReleaseFields)
    ensures var release := Release(1, fields, [Link(1, 1, "spotify", "a"), Link(2, 1, "apple", "b")]);
      var links := [FormLink(Some(1), "spotify", "new"), FormLink(None, "spotify", "")];
      && IdsToDelete(OriginalIds(Some(release)), links) == [2]
      && UpsertPayload(links, 1) == [LinkUpsert(Some(1), 1, "spotify", "new"), LinkUpsert(None, 1, "spotify", "")]
  {
    var release := Release(1, fields, [Link(1, 1, "spotify", "a"), Link(2, 1, "apple", "b")]);
    var links := [FormLink(Some(1), "spotify", "new"), FormLink(None, "spotify", "")];
    assert OriginalIds(Some(release)) == [1, 2];
    assert TruthyIds(links) == [1];
  }

  /** A fully successful update of release 1 whose form drops original link 2 and nothing else. */
  lemma ExampleSave(release: Release, fields: ReleaseFields, links: seq<FormLink>, db: Db)
    requires release.id == 1 && 1 in db.releases && db.releases[1] == fields
    requires IdsToDelete(OriginalIds(Some(release)), links) == [2]
    ensures var r := SubmitRelease(Some(release), fields, links, db, Faults(false, false, false));
      && r.db.links == UpsertAll(db, UpsertPayload(links, 1)).links - {2}
      && r.calls[2] == DeleteLinks([2])
  {
    assert db.releases[1 := fields] == db.releases;
    assert Written(Some(release), fields, db) == db;
    SubmitReleaseResult(Some(release), fields, links, db, Faults(false, false, false));
    assert (set k | k in [2]) == {2};
  }

  /**
   A release with links 1 and 2, saved with link 1's URL changed and one new
   link added (link 2 removed in the form): link 1 is updated, the new link is
   stored under a fresh id, and link 2 is deleted.
   */
  lemma ReconcileExample(fields: ReleaseFields, release: Release, links: seq<FormLink>, db: Db)
    requires release == Release(1, fields, [Link(1, 1, "spotify", "a"), Link(2, 1, "apple", "b")])
    requires links == [FormLink(Some(1), "spotify", "new"), FormLink(None, "spotify", "")]
    requires db == Db(map[], map[1 := fields], map[1 := LinkRow(1, "spotify", "a"), 2 := LinkRow(1, "apple", "b")], 3)
    ensures var r := SubmitRelease(Some(release), fields, links, db, Faults(false, false, false));
      && r.db.links == map[1 := LinkRow(1, "spotify", "new"), 3 := LinkRow(1, "spotify", "")]
      && r.calls[2] == DeleteLinks([2])
  {
    ExampleDiff(fields);
    ExampleSave(release, fields, links, db);
    ExampleUpsert(db);
  }

  // ---------------------------------------------------------- panel level

  /** The browser submits the form only when title, image URL and every link URL are filled in. */
  predicate ReleaseFormComplete(f: ReleaseFields, links: seq<FormLink>) {
    f.title != "" && f.imageUrl != "" && forall j :: 0 <= j < |links| ==> links[j].url != ""
  }

  /**
   Submitting the release modal: an incomplete form is not submitted;
   otherwise the release is saved and, when `onSave` runs, `handleSave`
   closes the modal and refreshes the page. On a failed save the modal stays
   open while a release write that went through stays in the store.
   */
  function SubmitReleaseModal(m: ModalState, f: ReleaseFields, links: seq<FormLink>,
                              db: Db, faults: Faults): (r: PanelSave)
    requires m.modalType == Some(ReleaseModal)
    ensures !ReleaseFormComplete(f, links) ==> r == PanelSave(m, db, false)
    ensures r.refresh <==> ReleaseFormComplete(f, links) && WriteAccepted(ReleaseOf(m.editing), db, faults.write)
                           && !faults.upsert
    ensures r.refresh ==> r.modal == Closed
    ensures !r.refresh ==> r.modal == m
    ensures !r.refresh && ReleaseFormComplete(f, links) && WriteAccepted(ReleaseOf(m.editing), db, faults.write) ==>
              r.db.releases == db.releases[SavedId(ReleaseOf(m.editing), db) := f]
    ensures ReleaseFormComplete(f, links) ==> r.db == SubmitRelease(ReleaseOf(m.editing), f, links, db, faults).db
  {
    if !ReleaseFormComplete(f, links) then PanelSave(m, db, false)
    else
      var run := SubmitRelease(ReleaseOf(m.editing), f, links, db, faults);
      if Saved(run) then
        var step := HandleSave(m);
        PanelSave(step.modal, run.db, step.refresh)
      else PanelSave(m, run.db, false)
  }
}
