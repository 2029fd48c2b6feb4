# Contacts table: pagination and list state

This project models the client-side state machine of the `contactsDataTable`
Lightning Web Component. The component shows an Account's Contacts in a paged
table. Users can page through them, search Contacts of other Accounts, add
new Contacts through a draft form, edit rows inline and save the edits, and
assign a Contact found by a search to the current Account.

The model has two layers.

- `ContactsState` (state.dfy) gives each handler as a pure transition over
  a `View`, which holds every field the handlers read or write. The
  transitions carry the per-call properties. Examples: the page count is the
  ceiling of records over page size; a search error leaves the list
  untouched; `draftValues` is empty after any save.
- `ContactsComponent.ContactsDataTable` (component.dfy) is the component
  itself, as a class with the same fields. Its handler methods assign those
  fields step by step, as the JavaScript does. Each handler is proved to
  leave exactly the state its transition describes, and to keep the
  component invariant `Valid()`. That invariant says the page count, the
  page number and the displayed rows agree with the list and the page size.

`Pagination` (pagination.dfy) holds the arithmetic of `paginationHelper`:
- the page count;
- the clamp;
- the copy loop, as the method `CopyPage`, with its specification
  `PageWindow`.

`Text` (text.dfy) models the status-tag test of the save reply and the
`join('\n')` of its messages. `Drafts` (drafts.dfy) models the draft contact
records and JavaScript's `splice(index, 1)`. `ContactsProperties`
(properties.dfy) states what repeated pagination, navigation and the two
button getters amount to.

Server calls (`getContacts`, `searchContacts`, `upsertContacts`) are not
modelled as calls. Each handler instead takes the call's outcome as a
parameter:
- `Ok(list)` for a list of records;
- `Ok(tags)` for the status strings of an upsert;
- `Err(message)` for a rejected call, carrying `error.body.message`.

Toasts the handler dispatches are returned as values (title, message,
variant). Reads past the end of `contactsList` yield JavaScript's
`undefined`, so `recordsToDisplay` is a sequence of `Option<Record>`.

Behaviour of the code that the model keeps as it is:

- When there are no records and the incoming page number is above 1, the
  clamp sets `pageNumber` to 0, not 1. Examples are "next" on an empty table,
  or a search with no hits started from page 2. The displayed rows are then
  a page of `undefined` entries. A second pagination moves page 0 to page 1
  (`PaginateToZero`, `PaginateTwice`, `EmptyTableRows`).
- With no records, `totalPages` is 0. On page 1, "last" and "next" therefore
  stay enabled (`EmptyTableButtons`).
- `handleSave` empties `draftValues` before the upsert. Drafts are therefore
  gone after a failed save as well.
- An upsert reply with no entries makes `result[0].toLowerCase()` throw. The
  catch block then throws too, on the missing `error.body`. No toast is
  shown, and nothing else changes.
- `handleAssignToAccount` always says the assignment succeeded and resets
  the search view, whatever the status tag is. Only the toast's title and
  colour follow the tag.
- `handleRefresh` clears the search flag and banner before its fetch, so
  they are cleared even when the fetch fails.

## Model

| member | source | states |
|---|---|---|
| Pagination.TotalPagesBounds | force-app/main/default/lwc/contactsDataTable/contactsDataTable.js:393 | `(totalPages - 1) * pageSize < totalRecords <= totalPages * pageSize`, i.e. the page count is `Math.ceil(totalRecords / pageSize)` |
| Pagination.TotalPagesIsCeiling | force-app/main/default/lwc/contactsDataTable/contactsDataTable.js:393 | any count of pages satisfying those bounds is the computed one, so the ceiling is unique |
| Pagination.TotalPagesZero | force-app/main/default/lwc/contactsDataTable/contactsDataTable.js:393 | there are no pages exactly when there are no records |
| Pagination.ClampPageRange | force-app/main/default/lwc/contactsDataTable/contactsDataTable.js:395-399 | the clamped page is 1 when the page was at most 1, else the smaller of the page and the page count; it is 0 only with no pages |
| Pagination.ClampPageTwice | force-app/main/default/lwc/contactsDataTable/contactsDataTable.js:395-399 | clamping again is a no-op, except that page 0 moves to 1 |
| Pagination.CopyPage | force-app/main/default/lwc/contactsDataTable/contactsDataTable.js:401-406 | the copy loop, with its `break` at `totalRecords`, yields exactly the page window: entry k is element `start + k` of the list, or `undefined` past its end |
| Pagination.PageWindowLength | force-app/main/default/lwc/contactsDataTable/contactsDataTable.js:401 | the window holds at most `pageSize` rows |
| Pagination.VisibleSlice | force-app/main/default/lwc/contactsDataTable/contactsDataTable.js:401-406 | on a page from 1 to the page count, the window is the list's slice `[(page-1)*size .. min(page*size, length))`, in order, with no `undefined` rows |
| Pagination.EmptyListWindow | force-app/main/default/lwc/contactsDataTable/contactsDataTable.js:402-404 | with no records, page 1 shows nothing because of the break at `i === totalRecords` |
| Pagination.ZeroPageWindow | force-app/main/default/lwc/contactsDataTable/contactsDataTable.js:401-406 | with no records, page 0 shows `pageSize` `undefined` rows, since the loop starts below 0 and never meets the break |
| ContactsState.Initial | force-app/main/default/lwc/contactsDataTable/contactsDataTable.js:44-67 | the initial component satisfies the invariant, with page size 5 (the first option), page 1 and nothing displayed |
| ContactsState.Paginate | force-app/main/default/lwc/contactsDataTable/contactsDataTable.js:390-407 | the page count is the ceiling, the page is clamped to 1 or to the smaller of the page and the page count, and only the page count, page number and displayed rows change |
| ContactsState.PaginateSettles | force-app/main/default/lwc/contactsDataTable/contactsDataTable.js:390-407 | after pagination, the page count, page number and displayed rows agree with the list |
| ContactsProperties.PaginateToZero | force-app/main/default/lwc/contactsDataTable/contactsDataTable.js:395-399 | pagination yields page 0 if and only if there are no records and the incoming page was above 1 |
| ContactsProperties.PaginateTwice | force-app/main/default/lwc/contactsDataTable/contactsDataTable.js:390-407 | a second pagination changes nothing, except after a page-0 result, where it moves to page 1 and empties the display |
| ContactsProperties.ShownRows | force-app/main/default/lwc/contactsDataTable/contactsDataTable.js:401-406 | in any consistent state on a real page, the displayed rows are that page's slice of `contactsList`, all present, at most a page of them |
| ContactsProperties.EmptyTableRows | force-app/main/default/lwc/contactsDataTable/contactsDataTable.js:395-406 | in a consistent empty state the page is 0 or 1; page 1 shows nothing, page 0 a page of `undefined` rows |
| ContactsProperties.Navigation | force-app/main/default/lwc/contactsDataTable/contactsDataTable.js:358-385 | "first" ends at 1; "previous" from 1 stays at 1, steps back from pages 2 to the page count, and moves page 0 of an empty table to 1; "next" steps forward below the last page and stays on it; "last" ends at the page count, or at 1 when there are no pages |
| ContactsProperties.NavigationConsistent | force-app/main/default/lwc/contactsDataTable/contactsDataTable.js:358-385 | the four navigation handlers keep the component invariant |
| ContactsProperties.ButtonsMatchMoves | force-app/main/default/lwc/contactsDataTable/contactsDataTable.js:413-423 | `DisableFirst` holds if and only if "previous" would not move the page; on pages from 1 up, `DisableLast` holds if and only if "next" would not move it; on page 0, `DisableLast` holds while "next" moves to page 1 |
| ContactsProperties.EmptyTableButtons | force-app/main/default/lwc/contactsDataTable/contactsDataTable.js:413-423 | with no records on page 1 there are 0 pages; "first" is disabled and "last" is not |
| ContactsProperties.TwelveRecordsByFive | force-app/main/default/lwc/contactsDataTable/contactsDataTable.js:358-407 | 12 records by 5 make 3 pages; page 1 shows rows 0-4; two "next" presses reach page 3 showing rows 10-11; a third press changes nothing |
| ContactsState.FirstPage | force-app/main/default/lwc/contactsDataTable/contactsDataTable.js:374-377 | ends on page 1; only the three pagination fields change, recomputed for page 1 |
| ContactsState.PreviousPage | force-app/main/default/lwc/contactsDataTable/contactsDataTable.js:358-361 | only the pagination fields change: the page count is recomputed and the page is one less than before, clamped to 1 from below and to the page count from above |
| ContactsState.NextPage | force-app/main/default/lwc/contactsDataTable/contactsDataTable.js:366-369 | only the pagination fields change: the page is one more than before, clamped to the page count |
| ContactsState.LastPage | force-app/main/default/lwc/contactsDataTable/contactsDataTable.js:382-385 | only the pagination fields change: the page is the stored page count, clamped as above |
| ContactsState.DisableFirst | force-app/main/default/lwc/contactsDataTable/contactsDataTable.js:413-415 | the getter's test `pageNumber == 1`; what it means for the buttons is proved in `ButtonsMatchMoves` |
| ContactsState.DisableLast | force-app/main/default/lwc/contactsDataTable/contactsDataTable.js:421-423 | the getter's test `pageNumber == totalPages`; what it means for the buttons is proved in `ButtonsMatchMoves` |
| ContactsComponent.ContactsDataTable.DisableFirst | force-app/main/default/lwc/contactsDataTable/contactsDataTable.js:413-415 | in a valid component, "first"/"previous" is disabled exactly when "previous" would leave the page where it is |
| ContactsComponent.ContactsDataTable.DisableLast | force-app/main/default/lwc/contactsDataTable/contactsDataTable.js:421-423 | in a valid component on a page from 1 up, "last"/"next" is disabled exactly when "next" would leave the page where it is |
| ContactsState.RecordsPerPage | force-app/main/default/lwc/contactsDataTable/contactsDataTable.js:350-353 | the new page size is stored, the list and every other field are kept, the page count is recomputed for the new size and the old page is clamped to it; the invariant is kept |
| ContactsState.Wired | force-app/main/default/lwc/contactsDataTable/contactsDataTable.js:80-93 | delivered data replaces the list and its count, keeps every other field and repaginates from the old page, leaving a consistent state; an error or no data changes nothing |
| Text.LowerCharIs | force-app/main/default/lwc/contactsDataTable/contactsDataTable.js:114 | lower-casing maps a character to a given lower-case letter if and only if it is that letter or its upper-case form |
| Text.SuccessTagIff | force-app/main/default/lwc/contactsDataTable/contactsDataTable.js:114 | a status tag lower-cases to `success` if and only if it has seven characters, each being the lower- or upper-case letter of `success` at that position |
| Text.SplitJoin | force-app/main/default/lwc/contactsDataTable/contactsDataTable.js:113 | splitting the `'\n'`-join of message lines that hold no newline gives the lines back |
| Text.JoinSplit | force-app/main/default/lwc/contactsDataTable/contactsDataTable.js:113 | joining the pieces of a split with the separator gives the text back |
| ContactsState.SaveToast | force-app/main/default/lwc/contactsDataTable/contactsDataTable.js:110-116 | the save toast's title is the status tag, and its variant is success if and only if the tag lower-cases to `success` |
| ContactsState.SaveToastLines | force-app/main/default/lwc/contactsDataTable/contactsDataTable.js:113 | for a reply with the tag and at least one message, none of which holds a newline, the toast message split at newlines gives back the messages after the tag |
| ContactsState.DuplicateEmailToast | force-app/main/default/lwc/contactsDataTable/contactsDataTable.js:110-116 | an `Error` tag with one message gives an error toast carrying that message |
| ContactsState.Save | force-app/main/default/lwc/contactsDataTable/contactsDataTable.js:99-162 | `draftValues` is empty afterwards on every path; a rejected call gives one error toast and no other change; an empty reply gives no toast; a non-success tag gives only the save toast; a success resets the insert form after `Inserted`, re-runs the search after `Updated` on search results, recounts `totalRecords`, and repaginates, and changes nothing else: the search flag, page size and timer slot are kept, and so are the form, key, banner and columns unless the operation was `Inserted`; from a consistent state the page is the old page clamped to the new page count |
| ContactsState.SaveSucceeded | force-app/main/default/lwc/contactsDataTable/contactsDataTable.js:118-151 | after a successful upsert, `totalRecords == |contactsList|` and the pagination is settled; `Inserted` clears the drafts, form, key, banner and columns; `Updated` on search results takes the new search result, or shows the fixed error toast; no other field changes; with neither, the list is recounted and repaginated from the old page; from a consistent state, on every path the page is the old page clamped to the new page count |
| ContactsState.Search | force-app/main/default/lwc/contactsDataTable/contactsDataTable.js:169-181 | the key is stored; a non-empty key arms the debounce slot and changes nothing else; an empty key gives exactly the state and toasts of `Refresh` |
| ContactsState.SearchTimerFires | force-app/main/default/lwc/contactsDataTable/contactsDataTable.js:175-177 | the timer slot empties and the outcome is exactly that of `PerformSearch` with the key current when the timer fires; the invariant is kept |
| ContactsState.PerformSearch | force-app/main/default/lwc/contactsDataTable/contactsDataTable.js:186-233 | an empty key gives exactly the outcome of `Refresh`; a non-empty result sets the search flag, banner, list, count and search columns; an empty result sets the flag, banner, an empty list and count 0 and keeps the columns; in both, every other field is kept and the old page is clamped to the new page count; an error leaves the state as it was, with one error toast |
| ContactsState.Refresh | force-app/main/default/lwc/contactsDataTable/contactsDataTable.js:238-270 | the search flag and banner are cleared on both outcomes; success replaces the list and count, clears the key, restores the standard columns, shows the fixed success toast, keeps every other field and repaginates from the old page; failure changes nothing else |
| ContactsState.AssignPayload | force-app/main/default/lwc/contactsDataTable/contactsDataTable.js:278-283 | one row is sent, holding exactly the Contact's `Id` and the current Account's id |
| ContactsState.Assign | force-app/main/default/lwc/contactsDataTable/contactsDataTable.js:276-312 | any non-empty reply restores the standard columns, clears key, flag and banner, keeps the list and every other field, repaginates from the old page and shows the fixed "assigned" message titled by the tag; an error or an empty reply changes nothing |
| Drafts.BlankContact | force-app/main/default/lwc/contactsDataTable/contactsDataTable.js:329-330 | a new draft has exactly the fields FirstName, LastName, Phone, Email and AccountId; all are empty except AccountId, which is the record id |
| ContactsState.AddContact | force-app/main/default/lwc/contactsDataTable/contactsDataTable.js:327-333 | exactly one blank draft is appended, earlier drafts are unchanged, the form is shown, and nothing else changes |
| Drafts.RemoveAt | force-app/main/default/lwc/contactsDataTable/contactsDataTable.js:341 | `splice(index, 1)` at a valid index removes exactly that draft and keeps the rest in order |
| Drafts.RemoveOutside | force-app/main/default/lwc/contactsDataTable/contactsDataTable.js:341 | `splice` at an index past the end removes nothing; a negative index counts from the end; one below `-length` removes the first draft |
| ContactsState.RemoveContact | force-app/main/default/lwc/contactsDataTable/contactsDataTable.js:339-344 | the draft at the index is removed with the others kept in order, and the form is shown if and only if drafts remain |
| Drafts.SetFieldOnly | force-app/main/default/lwc/contactsDataTable/contactsDataTable.js:321 | the field write changes only that field of that one draft |
| ContactsState.InputChange | force-app/main/default/lwc/contactsDataTable/contactsDataTable.js:318-322 | at a valid index only `contacts[index][field]` changes; at a missing index the write throws and nothing changes |
| ContactsComponent.ContactsDataTable.constructor | force-app/main/default/lwc/contactsDataTable/contactsDataTable.js:44-67 | the fields start as the initial state, which satisfies the invariant |
| ContactsComponent.ContactsDataTable.PaginationHelper | force-app/main/default/lwc/contactsDataTable/contactsDataTable.js:390-407 | the fields end as `Paginate` of the fields before the call |
| ContactsComponent.ContactsDataTable.PreviousPage | force-app/main/default/lwc/contactsDataTable/contactsDataTable.js:358-361 | keeps the invariant and ends in the state `ContactsState.PreviousPage` describes |
| ContactsComponent.ContactsDataTable.NextPage | force-app/main/default/lwc/contactsDataTable/contactsDataTable.js:366-369 | keeps the invariant and ends in the state `ContactsState.NextPage` describes |
| ContactsComponent.ContactsDataTable.FirstPage | force-app/main/default/lwc/contactsDataTable/contactsDataTable.js:374-377 | keeps the invariant and ends in the state `ContactsState.FirstPage` describes |
| ContactsComponent.ContactsDataTable.LastPage | force-app/main/default/lwc/contactsDataTable/contactsDataTable.js:382-385 | keeps the invariant and ends in the state `ContactsState.LastPage` describes |
| ContactsComponent.ContactsDataTable.HandleRecordsPerPage | force-app/main/default/lwc/contactsDataTable/contactsDataTable.js:350-353 | keeps the invariant and ends in the state `RecordsPerPage` describes |
| ContactsComponent.ContactsDataTable.WiredContacts | force-app/main/default/lwc/contactsDataTable/contactsDataTable.js:81-93 | keeps the invariant and ends in the state `Wired` describes |
| ContactsComponent.ContactsDataTable.HandleSave | force-app/main/default/lwc/contactsDataTable/contactsDataTable.js:99-162 | sends the drafts for `Inserted`, the edited rows for `Updated` and `null` otherwise; keeps the invariant; ends in the state and toasts `Save` describes |
| ContactsComponent.ContactsDataTable.ApplySavedChanges | force-app/main/default/lwc/contactsDataTable/contactsDataTable.js:118-151 | ends in the state and toasts `SaveSucceeded` describes |
| ContactsComponent.ContactsDataTable.HandleSearch | force-app/main/default/lwc/contactsDataTable/contactsDataTable.js:169-181 | keeps the invariant and ends in the state and toasts `Search` describes |
| ContactsComponent.ContactsDataTable.SearchTimerFires | force-app/main/default/lwc/contactsDataTable/contactsDataTable.js:175-177 | keeps the invariant and ends in the state and toasts `ContactsState.SearchTimerFires` describes |
| ContactsComponent.ContactsDataTable.PerformSearch | force-app/main/default/lwc/contactsDataTable/contactsDataTable.js:186-233 | keeps the invariant and ends in the state and toasts `ContactsState.PerformSearch` describes |
| ContactsComponent.ContactsDataTable.HandleRefresh | force-app/main/default/lwc/contactsDataTable/contactsDataTable.js:238-270 | keeps the invariant and ends in the state and toasts `Refresh` describes |
| ContactsComponent.ContactsDataTable.HandleAssignToAccount | force-app/main/default/lwc/contactsDataTable/contactsDataTable.js:276-312 | sends `AssignPayload`, keeps the invariant and ends in the state and toasts `Assign` describes |
| ContactsComponent.ContactsDataTable.HandleInputChange | force-app/main/default/lwc/contactsDataTable/contactsDataTable.js:318-322 | reports the TypeError exactly when the draft is missing, keeps the invariant and ends in the state `InputChange` describes |
| ContactsComponent.ContactsDataTable.HandleAddContact | force-app/main/default/lwc/contactsDataTable/contactsDataTable.js:327-333 | keeps the invariant and ends in the state `AddContact` describes |
| ContactsComponent.ContactsDataTable.HandleRemoveContact | force-app/main/default/lwc/contactsDataTable/contactsDataTable.js:339-344 | keeps the invariant and ends in the state `RemoveContact` describes |

## Left out

- The debounce timer's wall-clock timing (`setTimeout` of 300 ms, `clearTimeout`) is not modelled. It becomes one "search pending" slot that a non-empty key arms and that `SearchTimerFires` empties. When it fires, the search runs with the key current at that moment, as the closure does.
- Interleaving of asynchronous completions is not modelled. Each handler runs as one step once its server reply is known, so a fetch whose answer arrives after another handler has run is not modelled. `handleRefresh` clearing its flags before the await is kept, because it shows on the failure path.
- The server calls `getContacts`, `searchContacts` and `upsertContacts`, `refreshApex`, and the `@wire` adapter are not modelled. Their outcomes are parameters, and `await Promise.all` on a plain array adds nothing. `wiredContactList` is stored only to be handed to `refreshApex`, so it is not a field.
- `console.log`, `cardTitle`, the modal flags and their two handlers (`handleOpenModal`, `handleCloseModal`) are UI output or pure flag toggles that no other logic reads, so they are not modelled. Neither is the content of the COLS and SEARCH_COLS column definitions: columns are a two-valued tag.
- The search banner's exact text is not modelled. It is abstracted to `Fetched(count)` or `NotFound(key)`.
- `ContactsState.SaveToast` and `ContactsState.Assign` lower-case ASCII letters only; `toLowerCase` on other Unicode letters is not modelled.
- `HandleRecordsPerPage` takes the page size as a positive number. The string the dropdown stores is coerced by `*` and `/` in the same way. The stringified `contactLength` of `performSearch` is compared as a number, as JavaScript's coercion does.
- `HandleInputChange` and `HandleRemoveContact` take the `data-index` attribute as an integer. A non-numeric index string is not modelled.
- `ContactsState.Initial` and the constructor start `totalPages` and `contactsList` at 0 and the empty list; the component starts them as `undefined`. This matters before the first data delivery, which includes the case where the wire delivered only an error, in two ways:
  - `lastPage` there sets `pageNumber` to `undefined`. Both clamp tests are then false, so it stays `undefined`. "next" and "previous" would turn it into NaN, and a later delivery then copies no rows until "first" or "last" is pressed. The model instead lands on page 1.
  - `nextPage` there clamps to page 0 and reads `contactsList[-5]` from the undefined list, which throws a TypeError. The model instead shows a page of `undefined` rows on page 0.
- accountsTable.js and deleteConfirmationModal.js are not part of this model. They are event wiring around server calls and a modal.
