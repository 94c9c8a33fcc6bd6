# Artist site admin core, modelled in Dafny

This project models the logic of a single-artist website with a hidden admin
mode. The model has two parts.

- `components/AdminPanel.tsx` holds the admin panel:
  - the modal state machine (`openModal`, `closeModal`);
  - `handleSave` and `handleDelete`;
  - the show form, which inserts or updates depending on the edited show's id;
  - the release form. Its link list is edited locally (`addLink`,
    `removeLink`, `handleLinkChange`). On submit it writes the release, upserts
    every link, and then deletes the links removed in the form.
- `App.tsx` holds the root component:
  - the admin flag, taken from the URL fragment `#admin`;
  - the session mirrored from the auth service;
  - the render gates (loading, error, content) and the two admin overlays;
  - the all-or-error startup load `fetchData` and the tolerant `refreshData`;
  - the outcome messages of the login form.

The model is made of pure functions over immutable datatypes:

| file | module | contents |
|---|---|---|
| `content.dfy` | `Content` | the content rows: shows, releases with their links, artist info |
| `store.dfy` | `Store` | an abstract database: the `shows`, `releases` and `release_links` tables as maps, plus one id generator |
| `admin_panel.dfy` | `AdminPanel` | the modal, save and delete, and the show form |
| `release_form.dfy` | `ReleaseForm` | link editing, the upsert payload, the delete diff, `handleSubmit` and its reconciliation theorem |
| `app.dfy` | `App` | the root component and the login form |

Each remote call is one atomic step of the abstract database. A boolean input
says whether the service rejects the call, and a rejected call changes nothing.
The upsert semantics are assumed from the intent stated in the form's code
(AdminPanel.tsx:208):
- an entry with an id overwrites that row;
- an entry without an id is stored under a fresh id;
- fresh ids are handed out in payload order.

The main theorem is `ReleaseForm.ReleaseSaveReconciles`. It applies when every
call of a release save goes through, the form was opened on the release as
stored, and the form never invented an id. Under those conditions:
- the release's links in the store are exactly the submitted links, matched
  one-to-one and carrying their platform and URL;
- every link removed in the form is gone;
- the links of other releases are untouched.

## Model

| member | source | states |
|---|---|---|
| Content.LinkIds | components/AdminPanel.tsx:219 | the original link ids, one per loaded link and in order |
| Store.UpdateShow | components/AdminPanel.tsx:126 | an update by id succeeds exactly when the call is accepted and the row exists; it rewrites only that row and returns it; any other outcome is an error |
| Store.InsertShow | components/AdminPanel.tsx:130 | an accepted insert stores the fields under the generator's next id, returns that row, advances the generator by one and changes nothing else |
| Store.DeleteShow | components/AdminPanel.tsx:39 | an accepted delete removes exactly that id from `shows`; the other rows and tables are unchanged; a rejected one changes nothing |
| Store.UpdateRelease | components/AdminPanel.tsx:187-193 | the release update succeeds exactly when the call is accepted and the row exists, and then rewrites only that row |
| Store.InsertRelease | components/AdminPanel.tsx:197-202 | an accepted insert stores the release under a fresh id and leaves the links and shows alone |
| Store.DeleteRelease | components/AdminPanel.tsx:41 | an accepted delete removes exactly that id from `releases`; nothing else changes |
| Store.UpsertAll | components/AdminPanel.tsx:214 | the bulk upsert touches only `release_links` and uses one fresh id per id-less entry |
| Store.AssignedIdsRange | components/AdminPanel.tsx:208 | an entry with an id keeps it; an id-less entry gets a fresh id in `[next, next + count)` |
| Store.AssignedIdsFreshOrder | components/AdminPanel.tsx:208 | fresh ids are handed out strictly increasing in payload order |
| Store.AssignedIdsDistinct | components/AdminPanel.tsx:207-212 | with distinct ids, all already issued by the generator, no two entries end up under the same id |
| Store.UpsertAllKeys | components/AdminPanel.tsx:214 | the upsert adds exactly the assigned ids to the table's keys |
| Store.UpsertAllKeeps | components/AdminPanel.tsx:214 | every row whose id was not assigned keeps its value |
| Store.UpsertAllStores | components/AdminPanel.tsx:207-214 | each entry's row (release id, platform, URL) ends up under its assigned id |
| Store.UpsertAllEffect | components/AdminPanel.tsx:207-214 | the complete effect of the upsert: new keys, stored rows, untouched rest |
| Store.DeleteLinksIn | components/AdminPanel.tsx:223 | an accepted `in` delete removes exactly the listed ids and keeps every other row unchanged |
| AdminPanel.OpenModal | components/AdminPanel.tsx:18-22 | opening sets the type, the edited item and the open flag |
| AdminPanel.CloseModal | components/AdminPanel.tsx:24-28 | closing clears all three pieces of modal state |
| AdminPanel.View | components/AdminPanel.tsx:93-105 | the modal draws only when open with a type; the title says Edit exactly when an item is edited; the form matches the type |
| AdminPanel.CloseHides | components/AdminPanel.tsx:24-28 | after closing, nothing is drawn and the state is the mount state, from any state |
| AdminPanel.OpenShowsForm | components/AdminPanel.tsx:18-22 | opening draws the requested form seeded with the item, independent of the earlier state; open then close returns to the mount state |
| AdminPanel.HandleSave | components/AdminPanel.tsx:30-34 | a save closes the modal and triggers the page refresh |
| AdminPanel.HandleDelete | components/AdminPanel.tsx:36-45 | an unconfirmed delete does nothing; a confirmed, accepted one removes exactly that id from the table named by the type, keeps every other row of it and every other table, and a confirmed delete always refreshes |
| AdminPanel.DeleteMissingIsNoOp | components/AdminPanel.tsx:36-45 | deleting an id that does not exist leaves the database as it was |
| AdminPanel.DeleteKeepsValid | components/AdminPanel.tsx:36-45 | a delete preserves the store's id bounds |
| AdminPanel.InitShowForm | components/AdminPanel.tsx:113 | the show form starts from the edited show's fields, or when adding from empty date, venue, city and ticket URL and no event name |
| AdminPanel.ChangeShowField | components/AdminPanel.tsx:116-118 | an input change sets its own field and leaves every other field unchanged |
| AdminPanel.SubmitShow | components/AdminPanel.tsx:120-134 | a truthy id means an update that fails on a missing row; otherwise an insert under a fresh id; `onSave` gets the stored row only when one comes back, and a failure changes nothing |
| AdminPanel.SubmitShowKeepsValid | components/AdminPanel.tsx:120-134 | a show submit preserves the id bounds, and an inserted show's id was unused |
| AdminPanel.SubmitShowModal | components/AdminPanel.tsx:120-140 | an incomplete form (date, venue or city empty) is not submitted and changes nothing; a complete one leaves the store exactly as the show submit does; the modal closes and the page refreshes exactly when the save returned a row |
| AdminPanel.ShowLifecycle | components/AdminPanel.tsx:116-134 | add, then edit the city, then delete: one show under a new id, the same id with only the city changed, then no shows |
| ReleaseForm.InitLinks | components/AdminPanel.tsx:156 | the form starts with the loaded links themselves, in order, with their ids, platforms and URLs; a new release starts with none |
| ReleaseForm.InitReleaseForm | components/AdminPanel.tsx:155 | the release form starts from the edited release's fields, or from empty ones |
| ReleaseForm.ChangeReleaseField | components/AdminPanel.tsx:159-161 | a change sets its field and keeps the other |
| ReleaseForm.AddLink | components/AdminPanel.tsx:169-171 | exactly one id-less Spotify link with an empty URL is appended, and the rest is unchanged |
| ReleaseForm.RemoveLink | components/AdminPanel.tsx:173-175 | exactly position `i` is removed and the order is kept; an index outside the list removes nothing |
| ReleaseForm.RemoveUndoesAdd | components/AdminPanel.tsx:169-175 | removing the link just added restores the list |
| ReleaseForm.ChangeLink | components/AdminPanel.tsx:163-167 | only the link at `i` changes, only in the chosen field, and no id changes |
| ReleaseForm.InitEstablishesInvariant | components/AdminPanel.tsx:156 | the initial links have distinct ids, all of them original |
| ReleaseForm.EditPreservesInvariant | components/AdminPanel.tsx:163-175 | each add, remove or change keeps ids distinct and original |
| ReleaseForm.EditsPreserveInvariant | components/AdminPanel.tsx:163-175 | any sequence of edits keeps the invariant |
| ReleaseForm.UpsertPayload | components/AdminPanel.tsx:207-212 | one entry per form link, in order, keeping id, platform and URL and pointing at the saved release |
| ReleaseForm.TruthyIds | components/AdminPanel.tsx:218 | an id is listed exactly when some form link carries it and it is non-zero |
| ReleaseForm.IdsToDelete | components/AdminPanel.tsx:218-220 | an id is deleted exactly when it is original and not among the form's truthy ids |
| ReleaseForm.IdsToDeleteAppend | components/AdminPanel.tsx:220 | the diff is a filter, so it keeps the original order and multiplicity |
| ReleaseForm.NewReleaseDeletesNothing | components/AdminPanel.tsx:219-220 | a new release deletes no links |
| ReleaseForm.ZeroIdScheduledForDeletion | components/AdminPanel.tsx:207-220 | a kept link with id 0 is both upserted and scheduled for deletion |
| ReleaseForm.SubmitRelease | components/AdminPanel.tsx:177-232 | the calls in order: write, upsert, the delete only when there are removed ids, then `onSave`, so a saved run makes exactly three or four calls; a rejected write changes nothing; a rejected upsert leaves exactly the written release and nothing is undone; a rejected delete leaves exactly the upsert's result and `onSave` still runs; the delete is issued exactly when there are removed ids; `onSave` runs exactly when write and upsert went through |
| ReleaseForm.PayloadConditions | components/AdminPanel.tsx:207-212 | a payload built from a well-formed form carries distinct, already issued ids |
| ReleaseForm.TruthyIdsAssigned | components/AdminPanel.tsx:207-218 | every truthy form id is an id the upsert writes |
| ReleaseForm.AssignedNotDeleted | components/AdminPanel.tsx:207-220 | no id the upsert writes is scheduled for deletion |
| ReleaseForm.SubmitReleaseResult | components/AdminPanel.tsx:183-226 | a fully accepted save is the write, then the upsert, then the removal of the deleted ids |
| ReleaseForm.OriginalsStored | components/AdminPanel.tsx:219 | the original ids are exactly the stored links of the saved release |
| ReleaseForm.UpsertFacts | components/AdminPanel.tsx:207-215 | the upsert of a consistent save: new keys, stored rows, distinct and non-deleted assigned ids |
| ReleaseForm.ReconcileExactSet | components/AdminPanel.tsx:206-224 | after the save, the release's links are exactly the assigned ids |
| ReleaseForm.ReconcileOthersUntouched | components/AdminPanel.tsx:206-224 | the links of every other release are unchanged |
| ReleaseForm.WrittenValid | components/AdminPanel.tsx:185-204 | the release write preserves the id bounds, and the saved id is a stored release |
| ReleaseForm.UpsertValid | components/AdminPanel.tsx:214 | an upsert of links of a stored release, under ids below the bound, preserves the id bounds |
| ReleaseForm.AssignedBounds | components/AdminPanel.tsx:207-215 | every assigned id is in range and holds a link of the saved release |
| ReleaseForm.UpsertKeepsValid | components/AdminPanel.tsx:206-215 | the upsert step preserves the id bounds |
| ReleaseForm.RemovalKeepsValid | components/AdminPanel.tsx:222-224 | deleting link rows preserves the id bounds |
| ReleaseForm.ReconcileValid | components/AdminPanel.tsx:183-226 | the whole save preserves the id bounds |
| ReleaseForm.ReleaseSaveReconciles | components/AdminPanel.tsx:177-232 | after a fully accepted save, the stored links of the release are in one-to-one correspondence with the form links (platform and URL kept); removed originals are gone; other releases' links are untouched; the bounds still hold |
| ReleaseForm.ExampleUpsert | components/AdminPanel.tsx:206-215 | links 1 and 2, then upserting link 1 with a new URL and one new link, then removing 2: link 1 updated and the new link stored under id 3 |
| ReleaseForm.ExampleDiff | components/AdminPanel.tsx:207-220 | for that form, the diff is `[2]` and the payload keeps link 1's id |
| ReleaseForm.ExampleSave | components/AdminPanel.tsx:185-226 | an accepted update whose diff is `[2]` issues that delete and ends with the upsert result minus link 2 |
| ReleaseForm.ReconcileExample | components/AdminPanel.tsx:177-232 | the concrete save: link 1 updated, the new link under a fresh id, link 2 deleted |
| ReleaseForm.SubmitReleaseModal | components/AdminPanel.tsx:177-237 | an incomplete form is not submitted and changes nothing; a complete one leaves the store exactly as the release submit does; the modal closes and the page refreshes exactly when write and upsert went through |
| App.HashChange | App.tsx:71-74 | the admin flag is on exactly when the fragment is `#admin`, and nothing else changes |
| App.AuthStateChange | App.tsx:62-68 | the session is the one reported, and nothing else changes |
| App.Render | App.tsx:102-121 | loading screen exactly while loading; content exactly when not loading, with no error and artist info present; otherwise the error screen with the stored error |
| App.OverlaysFollowMode | App.tsx:119-121 | the login prompt shows exactly in admin mode without a session, and the panel exactly with one, so never both; the logout control shows exactly with a session |
| App.AdminToggleRestores | App.tsx:71-74 | entering and leaving `#admin` restores the state with the flag off, so neither overlay is drawn |
| App.CloseLoginHidesOverlays | App.tsx:157 | closing the login modal clears the fragment and hides both overlays |
| App.SignOutHidesPanel | App.tsx:119-121 | with no session, the panel and the logout control are gone |
| App.FetchData | App.tsx:21-57 | results are stored as they arrive; the first failing query sets the fixed error message; an error is set exactly when some query failed; loading ends off |
| App.LoadAllOrError | App.tsx:102-108 | content is drawn exactly when all three queries succeeded, and otherwise the load error is shown |
| App.MountThenLoad | App.tsx:12-74 | the page mounts on the loading screen; with the flag taken from the fragment before the load ends and no session yet, the first load draws content exactly when all three queries succeed, with the login prompt exactly at `#admin` and no panel or logout control, and otherwise the load error |
| App.RefreshData | App.tsx:87-100 | each list is replaced exactly when its query returned rows, and otherwise kept; nothing else changes |
| App.RefreshKeepsScreen | App.tsx:87-100 | a refresh never changes which screen is drawn, and refreshing again with the same replies changes nothing |
| App.ErrorText | App.tsx:150 | the error description when it is non-empty, and the message otherwise |
| App.AuthSubmit | App.tsx:135-154 | an accepted sign-up leaves only the success message; an accepted sign-in leaves no message; a refusal leaves only its error text; loading ends off; the inputs are kept |
| App.AuthMessagesAfterSubmit | App.tsx:170-171 | the form never shows both messages, and shows the error exactly when its text is non-empty |

## Left out

- Rendering (JSX, CSS classes, icons, the `Modal` chrome, section layouts) is left out. The model keeps only what decides which screen, overlay and form is drawn.
- The Supabase client is left out. The remote tables are an abstract map store, and the upsert semantics are taken from the intent at AdminPanel.tsx:208. Database constraints, row-level security and the schema's delete cascade are unknown, so deleting a release removes only its `releases` row.
- Auth verification, tokens and session lifetime are left out, because they belong to the service. The session is an input (`AuthStateChange`), and `handleLogout` appears only through the session the service then reports.
- `supabase/supabase.ts`, `components/common/ConfigGate.tsx`, `index.tsx` and `types.ts` are not part of this model. Configuration gating, the mount and the idealised type shapes do not affect the admin logic.
- Server-side ordering of shows by date and releases by id is left out, because the lists are passed through unchanged.
- Asynchronous interleaving is left out. Each handler runs to completion as one step, and the intermediate `loading` flags of the forms are not modelled. `window.confirm` is a boolean input.
- App.FetchData: each query answers with either its rows or an error. A reply carrying neither (no data and no error) is not modelled.
- ReleaseForm.ChangeLink requires a rendered index. With any other index the source would throw, and `ApplyEdit` skips such a change.
- ReleaseForm.ChangeLink replaces the link in the form's own list. The source writes into the link object itself (AdminPanel.tsx:164-165), and that object is shared with the release the page holds (AdminPanel.tsx:156, App.tsx:121). An edit made and then cancelled therefore stays in the page's copy of the release: the public music section shows it, and reopening the form starts from it, so a later save writes it. The model has no shared objects, so a reopened form always starts from the loaded values (`InitLinks`), and this leak is not modelled.
- App.AuthSubmit: a refused login keeps the password field as entered; `handleSubmit` never resets it (App.tsx:135-154).
- Content.Truthy: ids are JavaScript numbers, and only 0 is falsy (`show?.id`, `release?.id`, `filter(Boolean)`). Ids handed out by the store start at 1, so the id-0 case shown by ReleaseForm.ZeroIdScheduledForDeletion cannot arise from stored rows.
- ReleaseForm.ReleaseSaveReconciles covers only fully accepted saves. For a rejected delete, `SubmitRelease` states the outcome directly: the store is the upsert's result, so the removed links stay, and `onSave` still runs, because the source does not check the delete's error.
