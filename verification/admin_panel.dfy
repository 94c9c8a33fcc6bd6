/**
 The admin panel of components/AdminPanel.tsx: the modal state machine
 (`openModal` / `closeModal`), what the modal shows, `handleSave`,
 `handleDelete`, and the show form with its insert-or-update choice.
 */
module AdminPanel {
  import opened Content
  import opened Store

  datatype ModalType = ShowModal | ReleaseModal

  /** The item being edited: a show or a release. */
  datatype Item = ShowItem(show: Show) | ReleaseItem(release: Release)

  /** The three pieces of panel state: `isModalOpen`, `editingItem`, `modalType`. */
  datatype ModalState = ModalState(isOpen: bool, editing: Option<Item>, modalType: Option<ModalType>)

  /** The state the panel mounts with. */
  const Closed := ModalState(false, None, None)

  function OpenModal(m: ModalState, t: ModalType, item: Option<Item>): (r: ModalState)
    ensures r.isOpen && r.editing == item && r.modalType == Some(t)
  {
    m.(modalType := Some(t)).(editing := item).(isOpen := true)
  }

  function CloseModal(m: ModalState): (r: ModalState)
    ensures !r.isOpen && r.editing.None? && r.modalType.None?
  {
    m.(isOpen := false).(editing := None).(modalType := None)
  }

  // ------------------------------------------------------------ modal view

  datatype Verb = Add | Edit

  /** Which form the modal holds and the item it starts from. */
  datatype FormView = ShowFormView(show: Option<Show>) | ReleaseFormView(release: Option<Release>)

  /** What the modal renders: nothing, or a title and a form. */
  datatype ModalView = Hidden | Shown(verb: Verb, kind: ModalType, form: FormView)

  /**
   The item handed to the show form: the edited item when it is a show. The
   panel opens the show modal only with a show or with nothing (the buttons
   at AdminPanel.tsx:57 and 64), so the cast there never meets a release; the
   model hands the form no item in that case rather than a mistyped one.
   */
  function ShowOf(item: Option<Item>): Option<Show> {
    match item
    case Some(ShowItem(s)) => Some(s)
    case _ => None
  }

  /** The item handed to the release form: the edited item when it is a release. */
  function ReleaseOf(item: Option<Item>): Option<Release> {
    match item
    case Some(ReleaseItem(rel)) => Some(rel)
    case _ => None
  }

  /**
   The modal is mounted only when a type is set, and draws nothing while it
   is not open; its title says "Edit" exactly when an item is being edited.
   */
  function View(m: ModalState): (v: ModalView)
    ensures v.Shown? <==> m.isOpen && m.modalType.Some?
    ensures v.Shown? ==> v.kind == m.modalType.value
    ensures v.Shown? ==> (v.verb == Edit <==> m.editing.Some?)
    ensures v.Shown? ==> (v.form.ShowFormView? <==> v.kind == ShowModal)
  {
    match m.modalType
    case None => Hidden
    case Some(t) =>
      if !m.isOpen then Hidden
      else
        var verb := if m.editing.Some? then Edit else Add;
        if t == ShowModal then Shown(verb, t, ShowFormView(ShowOf(m.editing)))
        else Shown(verb, t, ReleaseFormView(ReleaseOf(m.editing)))
  }

  /** Closing always hides the modal and forgets the item, whatever came before. */
  lemma CloseHides(m: ModalState)
    ensures View(CloseModal(m)) == Hidden
    ensures CloseModal(m) == Closed
  {
  }

  /**
   Opening shows the form of the requested type seeded with the given item,
   independently of the earlier state; closing afterwards returns to the
   state the panel mounted with.
   */
  lemma OpenShowsForm(m: ModalState, t: ModalType, item: Option<Item>)
    ensures var v := View(OpenModal(m, t, item));
      && v.Shown? && v.kind == t && (v.verb == Edit <==> item.Some?)
      && (t == ShowModal ==> v.form == ShowFormView(ShowOf(item)))
      && (t == ReleaseModal ==> v.form == ReleaseFormView(ReleaseOf(item)))
    ensures forall m' :: OpenModal(m', t, item) == OpenModal(m, t, item)
    ensures CloseModal(OpenModal(m, t, item)) == Closed
  {
  }

  // --------------------------------------------------- handleSave / delete

  /** The panel after a step: its modal state and whether `onDataChange` was called. */
  datatype PanelStep = PanelStep(modal: ModalState, refresh: bool)

  /** `handleSave`: close the modal and ask the page to reload its lists. */
  function HandleSave(m: ModalState): (r: PanelStep)
    ensures View(r.modal) == Hidden && r.modal == Closed
    ensures r.refresh
  {
    PanelStep(CloseModal(m), true)
  }

  /** The database after a delete and whether `onDataChange` was called. */
  datatype DeleteStep = DeleteStep(db: Db, refresh: bool)

  /**
   `handleDelete`: only a confirmed delete reaches the database, against the
   table `t` selects and keyed by `id`; the page is refreshed after a
   confirmed delete whether or not the service accepted it.
   */
  function HandleDelete(db: Db, t: ModalType, id: int, confirmed: bool, fail: bool): (r: DeleteStep)
    ensures !confirmed ==> r == DeleteStep(db, false)
    ensures confirmed ==> r.refresh
    ensures confirmed && !fail && t == ShowModal ==>
              && r.db.shows.Keys == db.shows.Keys - {id}
              && (forall k :: k in r.db.shows ==> r.db.shows[k] == db.shows[k])
              && r.db.(shows := db.shows) == db
    ensures confirmed && !fail && t == ReleaseModal ==>
              && r.db.releases.Keys == db.releases.Keys - {id}
              && (forall k :: k in r.db.releases ==> r.db.releases[k] == db.releases[k])
              && r.db.(releases := db.releases) == db
    ensures fail ==> r.db == db
  {
    if !confirmed then DeleteStep(db, false)
    else match t
      case ShowModal => DeleteStep(DeleteShow(db, id, fail), true)
      case ReleaseModal => DeleteStep(DeleteRelease(db, id, fail), true)
  }

  /** Deleting an id the table does not hold changes nothing. */
  lemma DeleteMissingIsNoOp(db: Db, t: ModalType, id: int, confirmed: bool, fail: bool)
    requires t == ShowModal ==> id !in db.shows
    requires t == ReleaseModal ==> id !in db.releases
    ensures HandleDelete(db, t, id, confirmed, fail).db == db
  {
    var r := HandleDelete(db, t, id, confirmed, fail);
    if confirmed && !fail {
      if t == ShowModal {
        assert r.db.shows == db.shows;
      } else {
        assert r.db.releases == db.releases;
      }
    }
  }

  /** A delete keeps the id bounds of the store. */
  lemma DeleteKeepsValid(db: Db, t: ModalType, id: int, confirmed: bool, fail: bool)
    requires Valid(db)
    ensures Valid(HandleDelete(db, t, id, confirmed, fail).db)
  {
  }

  // ------------------------------------------------------------ show form

  /** The blank show the form starts from when adding. */
  const BlankShow := ShowFields("", "", "", None, "")

  /** `{ date: '', venue: '', city: '', ticket_url: '', ...show }` without its `id`. */
  function InitShowForm(show: Option<Show>): (f: ShowFields)
    ensures show.Some? ==> f == show.value.fields
    ensures show.None? ==> f.date == "" && f.venue == "" && f.city == "" && f.ticketUrl == "" && f.eventName.None?
  {
    match show
    case Some(s) => s.fields
    case None => BlankShow
  }

  datatype ShowField = DateField | VenueField | CityField | TicketUrlField

  /** `handleChange`: the named input's value replaces that field only. */
  function ChangeShowField(f: ShowFields, field: ShowField, value: string): (r: ShowFields)
    ensures Get(r, field) == value
    ensures forall other :: other != field ==> Get(r, other) == Get(f, other)
    ensures r.eventName == f.eventName
  {
    match field
    case DateField => f.(date := value)
    case VenueField => f.(venue := value)
    case CityField => f.(city := value)
    case TicketUrlField => f.(ticketUrl := value)
  }

  function Get(f: ShowFields, field: ShowField): string {
    match field
    case DateField => f.date
    case VenueField => f.venue
    case CityField => f.city
    case TicketUrlField => f.ticketUrl
  }

  /** The browser submits the form only when date, venue and city are filled in. */
  predicate ShowFormComplete(f: ShowFields) {
    f.date != "" && f.venue != "" && f.city != ""
  }

  /** The database after a show submit and the row handed to `onSave`, if any. */
  datatype ShowSave = ShowSave(db: Db, saved: Option<Show>)

  /**
   `ShowForm.handleSubmit`: an update keyed by the edited show's id when that
   id is truthy, an insert otherwise; the form's fields are written without
   an id, and `onSave` receives the returned row only when one comes back.
   */
  function SubmitShow(show: Option<Show>, form: ShowFields, db: Db, fail: bool): (r: ShowSave)
    ensures r.saved.None? ==> r.db == db
    ensures r.saved.Some? ==> r.saved.value.fields == form && r.saved.value.id in r.db.shows && r.db.shows[r.saved.value.id] == form
    ensures show.Some? && Truthy(show.value.id) ==>
              && (r.saved.Some? <==> !fail && show.value.id in db.shows)
              && (r.saved.Some? ==> r.saved.value.id == show.value.id && r.db.shows.Keys == db.shows.Keys)
    ensures !(show.Some? && Truthy(show.value.id)) ==>
              && (r.saved.Some? <==> !fail)
              && (r.saved.Some? ==> r.saved.value.id == db.nextId && r.db.shows.Keys == db.shows.Keys + {db.nextId})
    ensures r.saved.Some? ==> forall k :: k in db.shows && k != r.saved.value.id ==>
              k in r.db.shows && r.db.shows[k] == db.shows[k]
    ensures r.db.releases == db.releases && r.db.links == db.links
  {
    var reply := if show.Some? && Truthy(show.value.id) then UpdateShow(db, show.value.id, form, fail)
                 else InsertShow(db, form, fail);
    match reply
    case Row(db', row) => ShowSave(db', Some(row))
    case Rejected => ShowSave(db, None)
  }

  /** A show submit keeps the id bounds of the store, and a new show gets an id no row had. */
  lemma SubmitShowKeepsValid(show: Option<Show>, form: ShowFields, db: Db, fail: bool)
    requires Valid(db)
    ensures Valid(SubmitShow(show, form, db, fail).db)
    ensures var r := SubmitShow(show, form, db, fail);
      r.saved.Some? && !(show.Some? && Truthy(show.value.id)) ==> r.saved.value.id !in db.shows
  {
  }

  /** The panel and the database after a submit of the modal's form. */
  datatype PanelSave = PanelSave(modal: ModalState, db: Db, refresh: bool)

  /**
   Submitting the show modal: an incomplete form is not submitted; otherwise
   the show is saved and, when a row comes back, `handleSave` closes the modal
   and refreshes the page; on an error the modal stays open.
   */
  function SubmitShowModal(m: ModalState, form: ShowFields, db: Db, fail: bool): (r: PanelSave)
    requires m.modalType == Some(ShowModal)
    ensures !ShowFormComplete(form) ==> r == PanelSave(m, db, false)
    ensures r.refresh <==> ShowFormComplete(form) && SubmitShow(ShowOf(m.editing), form, db, fail).saved.Some?
    ensures r.refresh ==> r.modal == Closed
    ensures !r.refresh ==> r.modal == m && r.db == db
    ensures ShowFormComplete(form) ==> r.db == SubmitShow(ShowOf(m.editing), form, db, fail).db
  {
    if !ShowFormComplete(form) then PanelSave(m, db, false)
    else
      var s := SubmitShow(ShowOf(m.editing), form, db, fail);
      if s.saved.Some? then
        var step := HandleSave(m);
        PanelSave(step.modal, s.db, step.refresh)
      else PanelSave(m, db, false)
  }

  /**
   Add, edit and delete of one show against a store with no shows: the add
   yields exactly one show under a new id with the entered fields, editing its
   city keeps that id and changes only the city, and deleting it leaves no
   shows.
   */
  lemma ShowLifecycle(db: Db, f: ShowFields, city: string)
    requires Valid(db) && db.shows == map[]
    ensures var added := SubmitShow(None, f, db, false);
      && added.saved.Some?
      && added.db.shows == map[added.saved.value.id := f]
      && var id := added.saved.value.id;
         var edited := SubmitShow(added.saved, ChangeShowField(InitShowForm(added.saved), CityField, city),
                                  added.db, false);
         && edited.saved == Some(Show(id, f.(city := city)))
         && edited.db.shows == map[id := f.(city := city)]
         && HandleDelete(edited.db, ShowModal, id, true, false).db.shows == map[]
  {
    var added := SubmitShow(None, f, db, false);
    assert added.db.shows.Keys == {db.nextId};
    assert added.db.shows == map[db.nextId := f];
    var id := added.saved.value.id;
    assert Truthy(id);
    var form := ChangeShowField(InitShowForm(added.saved), CityField, city);
    assert form == f.(city := city);
    var edited := SubmitShow(added.saved, form, added.db, false);
    assert edited.db.shows.Keys == {id};
    assert edited.db.shows == map[id := f.(city := city)];
  }
}
