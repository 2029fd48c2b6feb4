/** The Contacts table component's state and, for each of its handlers, the
    state it leaves behind once the awaited server reply is in.  Each
    transition carries, as its postcondition, what the handler promises;
    the class in ContactsDataTable is proved to perform these transitions
    field by field. */
module ContactsState {
  import opened Wrappers
  import opened Pagination
  import opened Text
  import opened Drafts

  /** A Contact row as the server returns it; only its `Id` is ever read. */
  datatype Record = Record(id: string, fields: map<string, string>)

  /** Which column set the table shows: the editable columns, or those
      plus the "Assign" button column of a search. */
  datatype Columns = Cols | SearchCols

  /** The banner over the table: cleared, "Fetched n Contacts", or
      "No Contacts with search key: k found". */
  datatype SearchMessage = Blank | Fetched(count: nat) | NotFound(key: string)

  datatype Variant = Success | Error

  /** A toast the component dispatches. */
  datatype Toast = Toast(title: string, message: string, variant: Variant)

  /** What the contact-list wire delivers: nothing yet, the rows, or an error. */
  datatype WireResult = Pending | Data(list: seq<Record>) | Failed(message: string)

  /** Every field of the component that the handlers read or write.
      `searchPending` is the debounce timer slot: true while a timer is set
      and has not fired. */
  datatype View = View(
    recordId: string,
    searchMessage: SearchMessage,
    contacts: seq<Draft>,
    searchKey: string,
    columns: Columns,
    searchResults: bool,
    showInputField: bool,
    pageSize: int,
    totalPages: int,
    pageNumber: int,
    totalRecords: nat,
    contactsList: seq<Record>,
    draftValues: seq<Draft>,
    recordsToDisplay: seq<Option<Record>>,
    searchPending: bool)

  /** The state once pagination has run on it: the page count matches the
      record count, the page number is a value the clamp can produce, and the
      displayed rows are the loop's window. */
  ghost predicate Settled(v: View)
  {
    && v.pageSize > 0
    && v.totalPages == TotalPages(v.totalRecords, v.pageSize)
    && (v.pageNumber == 1 || 2 <= v.pageNumber <= v.totalPages || (v.pageNumber == 0 && v.totalPages == 0))
    && v.recordsToDisplay == PageWindow(v.contactsList, v.totalRecords, v.pageNumber, v.pageSize)
  }

  /** The invariant every handler keeps: settled, and the record count is the
      length of the list. */
  ghost predicate Consistent(v: View)
  {
    Settled(v) && v.totalRecords == |v.contactsList|
  }

  /** The state after construction and `connectedCallback`: page size 5 (the
      first page-size option), page 1, no records. `totalPages` and
      `contactsList` start out undefined in the component; 0 and the empty
      list stand for them, which differs only before the first delivery
      (for "last" and "next" pressed then). */
  function Initial(recordId: string): (v: View)
    ensures Consistent(v) && v.pageSize == 5 && v.pageNumber == 1 && v.recordsToDisplay == []
  {
    View(recordId, Blank, [], "", Cols, false, false, 5, 0, 1, 0, [], [], [], false)
  }

  // ---------------------------------------------------------------------
  // Pagination and navigation

  /** `paginationHelper`: recompute the page count, clamp the page number and
      copy the page's window of the list; nothing else changes. */
  function Paginate(v: View): (r: View)
    requires v.pageSize > 0
    ensures r.totalPages == TotalPages(v.totalRecords, v.pageSize)
    ensures r.pageNumber == if v.pageNumber <= 1 then 1 else Min(v.pageNumber, r.totalPages)
    ensures r == v.(totalPages := r.totalPages, pageNumber := r.pageNumber, recordsToDisplay := r.recordsToDisplay)
  {
    var pages := TotalPages(v.totalRecords, v.pageSize);
    var page := ClampPage(v.pageNumber, pages);
    v.(totalPages := pages, pageNumber := page,
       recordsToDisplay := PageWindow(v.contactsList, v.totalRecords, page, v.pageSize))
  }

  /** Pagination always leaves a settled state. */
  lemma PaginateSettles(v: View)
    requires v.pageSize > 0
    ensures Settled(Paginate(v))
  {
  }

  /** `after` is what `paginationHelper` leaves when run on `before`: only
      the page count, the page number and the displayed rows differ; the
      count is the ceiling for the records, the page number the old one
      clamped to 1 from below and to the page count from above, and the rows
      are that page's window of the list. */
  ghost predicate Repaged(before: View, after: View)
  {
    && before.pageSize > 0
    && after == before.(totalPages := after.totalPages, pageNumber := after.pageNumber,
                        recordsToDisplay := after.recordsToDisplay)
    && after.totalPages == TotalPages(before.totalRecords, before.pageSize)
    && after.pageNumber == (if before.pageNumber <= 1 then 1 else Min(before.pageNumber, after.totalPages))
    && after.recordsToDisplay == PageWindow(before.contactsList, before.totalRecords, after.pageNumber, before.pageSize)
  }

  /** `firstPage`. */
  function FirstPage(v: View): (r: View)
    requires v.pageSize > 0
    ensures r.pageNumber == 1 && Repaged(v.(pageNumber := 1), r)
  {
    Paginate(v.(pageNumber := 1))
  }

  /** `previousPage`: one page back, then pagination. */
  function PreviousPage(v: View): (r: View)
    requires v.pageSize > 0
    ensures Repaged(v.(pageNumber := v.pageNumber - 1), r)
  {
    Paginate(v.(pageNumber := v.pageNumber - 1))
  }

  /** `nextPage`: one page forward, then pagination. */
  function NextPage(v: View): (r: View)
    requires v.pageSize > 0
    ensures Repaged(v.(pageNumber := v.pageNumber + 1), r)
  {
    Paginate(v.(pageNumber := v.pageNumber + 1))
  }

  /** `lastPage`: the page count as page number, then pagination. */
  function LastPage(v: View): (r: View)
    requires v.pageSize > 0
    ensures Repaged(v.(pageNumber := v.totalPages), r)
  {
    Paginate(v.(pageNumber := v.totalPages))
  }

  /** `handleRecordsPerPage`: a new page size, then pagination. */
  function RecordsPerPage(v: View, pageSize: int): (r: View)
    requires pageSize > 0
    ensures r.pageSize == pageSize && Settled(r)
    ensures Repaged(v.(pageSize := pageSize), r)
    ensures Consistent(v) ==> Consistent(r)
  {
    Paginate(v.(pageSize := pageSize))
  }

  /** The getter `DisableFirst`. */
  predicate DisableFirst(v: View)
  {
    v.pageNumber == 1
  }

  /** The getter `DisableLast`. */
  predicate DisableLast(v: View)
  {
    v.pageNumber == v.totalPages
  }

  // ---------------------------------------------------------------------
  // Server replies

  /** `wiredContacts`: rows from the wire replace the list; an error or an
      empty delivery leaves the state alone. */
  function Wired(v: View, wire: WireResult): (r: View)
    requires v.pageSize > 0
    ensures wire.Data? ==> r.contactsList == wire.list && r.totalRecords == |wire.list| && Consistent(r)
    ensures wire.Data? ==> Repaged(v.(totalRecords := |wire.list|, contactsList := wire.list), r)
    ensures !wire.Data? ==> r == v
    ensures Consistent(v) ==> Consistent(r)
  {
    match wire
    case Data(list) => Paginate(v.(totalRecords := |list|, contactsList := list))
    case _ => v
  }

  /** What a handler leaves behind: the new state and the toasts it
      dispatched, in order. */
  datatype Step = Step(view: View, toasts: seq<Toast>)

  function ErrorToast(message: string): Toast
  {
    Toast("Error", message, Error)
  }

  /** The toast built from the upsert reply: the status tag as title, the
      remaining lines joined by newlines as message. */
  function SaveToast(result: seq<string>): (t: Toast)
    requires |result| > 0
    ensures t.title == result[0]
    ensures t.variant == Success <==> IsSuccessTag(result[0])
  {
    Toast(result[0], Join(result[1..], "\n"), if IsSuccessTag(result[0]) then Success else Error)
  }

  /** The toast's message holds the reply's lines one per line: split on
      newlines it gives them back when none of them holds a newline. */
  lemma SaveToastLines(result: seq<string>)
    requires |result| >= 2
    requires forall i :: 1 <= i < |result| ==> '\n' !in result[i]
    ensures Split(SaveToast(result).message, '\n') == result[1..]
  {
    SplitJoin(result[1..], '\n');
  }

  /** A reply ("Error", "Duplicate email") gives an error toast titled
      "Error" whose message is the one line. */
  lemma DuplicateEmailToast()
    ensures SaveToast(["Error", "Duplicate email"]) == Toast("Error", "Duplicate email", Error)
  {
    assert ["Error", "Duplicate email"][1..] == ["Duplicate email"];
  }

  /** The rows `handleSave` sends for an operation: the drafts of the insert
      form, the inline edits of the table, or `null` for any other button. */
  function UpsertPayload(operation: string, contacts: seq<Draft>, editedRows: seq<Draft>): Option<seq<Draft>>
  {
    if operation == "Inserted" then Some(contacts)
    else if operation == "Updated" then Some(editedRows)
    else None
  }

  const SearchRefreshFailed := "An error occurred while trying to fetch the updated searched results"

  /** `handleSave`, given the upsert reply and the reply of the search that
      re-runs when edits are saved on search results.  The inline edits are
      dropped before the call, whatever it answers.  An empty reply makes the
      handler throw before any toast. */
  function Save(v: View, operation: string, reply: Result<seq<string>>, searchReply: Result<seq<Record>>): (r: Step)
    requires v.pageSize > 0
    ensures r.view.draftValues == []
    ensures Consistent(v) ==> Consistent(r.view)
    ensures reply.Err? ==> r.view == v.(draftValues := []) && r.toasts == [ErrorToast(reply.message)]
    ensures reply.Ok? && reply.value == [] ==> r.view == v.(draftValues := []) && r.toasts == []
    ensures reply.Ok? && reply.value != [] ==> |r.toasts| >= 1 && r.toasts[0] == SaveToast(reply.value)
    ensures reply.Ok? && reply.value != [] && !IsSuccessTag(reply.value[0]) ==>
      r.view == v.(draftValues := []) && |r.toasts| == 1
    ensures reply.Ok? && reply.value != [] && IsSuccessTag(reply.value[0]) ==>
      && r.view.totalRecords == |r.view.contactsList|
      && Settled(r.view)
      && (operation == "Inserted" ==>
            && r.view.contacts == [] && !r.view.showInputField && r.view.searchKey == ""
            && r.view.columns == Cols && r.view.searchMessage == Blank
            && r.view.contactsList == v.contactsList)
      && (operation == "Updated" && v.searchResults ==>
            r.view.contactsList == (if searchReply.Ok? then searchReply.value else v.contactsList)
            && r.toasts[1..] == (if searchReply.Ok? then [] else [ErrorToast(SearchRefreshFailed)]))
      && (operation != "Updated" || !v.searchResults ==> r.view.contactsList == v.contactsList && |r.toasts| == 1)
      && SaveFrame(v.(draftValues := []), operation, r.view)
      && (Consistent(v) ==>
            r.view.pageNumber == (if v.pageNumber <= 1 then 1 else Min(v.pageNumber, r.view.totalPages)))
  {
    var cleared := v.(draftValues := []);
    match reply
    case Err(message) => Step(cleared, [ErrorToast(message)])
    case Ok(result) =>
      if |result| == 0 then Step(cleared, [])
      else
        var toast := SaveToast(result);
        if !IsSuccessTag(result[0]) then Step(cleared, [toast])
        else
          var after := SaveSucceeded(cleared, operation, searchReply);
          Step(after.view, [toast] + after.toasts)
  }

  /** What a successful save may change: the insert form, the key, banner
      and columns only after an insert; the list, its count and the
      pagination fields in any case.  The drafts sent, the search flag, the
      page size and the timer slot stay as they were. */
  ghost predicate SaveFrame(v: View, operation: string, after: View)
  {
    && after == v.(contacts := after.contacts, showInputField := after.showInputField, columns := after.columns,
                   searchKey := after.searchKey, searchMessage := after.searchMessage,
                   contactsList := after.contactsList, totalRecords := after.totalRecords,
                   totalPages := after.totalPages, pageNumber := after.pageNumber,
                   recordsToDisplay := after.recordsToDisplay)
    && (operation != "Inserted" ==>
          && after.contacts == v.contacts && after.showInputField == v.showInputField
          && after.columns == v.columns && after.searchKey == v.searchKey && after.searchMessage == v.searchMessage)
  }

  /** What `handleSave` does once the upsert reported success: reset the
      insert form after an insert, re-run the search after edits made on
      search results, then recount the list and paginate.  The toasts are
      those dispatched after the save toast. */
  function SaveSucceeded(v: View, operation: string, searchReply: Result<seq<Record>>): (r: Step)
    requires v.pageSize > 0
    ensures r.view.totalRecords == |r.view.contactsList| && Settled(r.view)
    ensures r.view.draftValues == v.draftValues
    ensures operation == "Inserted" ==>
      && r.view.contacts == [] && !r.view.showInputField && r.view.searchKey == ""
      && r.view.columns == Cols && r.view.searchMessage == Blank
      && r.view.contactsList == v.contactsList && r.toasts == []
    ensures operation == "Updated" && v.searchResults ==>
      r.view.contactsList == (if searchReply.Ok? then searchReply.value else v.contactsList)
      && r.toasts == (if searchReply.Ok? then [] else [ErrorToast(SearchRefreshFailed)])
    ensures operation != "Updated" || !v.searchResults ==> r.view.contactsList == v.contactsList && r.toasts == []
    ensures SaveFrame(v, operation, r.view)
    ensures Consistent(v) ==>
      r.view.pageNumber == (if v.pageNumber <= 1 then 1 else Min(v.pageNumber, r.view.totalPages))
    ensures operation != "Inserted" && (operation != "Updated" || !v.searchResults) ==>
      Repaged(v.(totalRecords := |v.contactsList|), r.view)
  {
    var inserted :=
      if operation == "Inserted" then
        Paginate(v.(contacts := [], showInputField := false, columns := Cols,
                    searchKey := "", searchMessage := Blank))
      else v;
    var refreshed :=
      if inserted.searchResults && operation == "Updated" then
        match searchReply
        case Ok(list) => Step(Paginate(inserted.(contactsList := list)), [])
        case Err(_) => Step(inserted, [ErrorToast(SearchRefreshFailed)])
      else Step(inserted, []);
    var counted := refreshed.view.(totalRecords := |refreshed.view.contactsList|);
    Step(Paginate(counted), refreshed.toasts)
  }

  const RefreshedMessage := "Search cleared and Contacts datatable re-initialized"

  /** `handleRefresh`, given the reply of the contact fetch.  The search flag
      and banner are cleared before the call, so also when it fails. */
  function Refresh(v: View, reply: Result<seq<Record>>): (r: Step)
    requires v.pageSize > 0
    ensures !r.view.searchResults && r.view.searchMessage == Blank
    ensures r.view.searchPending == v.searchPending
    ensures Consistent(v) ==> Consistent(r.view)
    ensures reply.Ok? ==>
      && r.view.contactsList == reply.value && r.view.totalRecords == |reply.value|
      && r.view.searchKey == "" && r.view.columns == Cols && Consistent(r.view)
      && r.toasts == [Toast("Success", RefreshedMessage, Success)]
    ensures reply.Ok? ==>
      Repaged(v.(searchResults := false, searchMessage := Blank, searchKey := "", contactsList := reply.value,
                 totalRecords := |reply.value|, columns := Cols), r.view)
    ensures reply.Err? ==>
      r.view == v.(searchResults := false, searchMessage := Blank) && r.toasts == [ErrorToast(reply.message)]
  {
    var cleared := v.(searchResults := false, searchMessage := Blank);
    match reply
    case Err(message) => Step(cleared, [ErrorToast(message)])
    case Ok(list) =>
      var fetched := Paginate(cleared.(searchKey := "", contactsList := list, totalRecords := |list|));
      Step(fetched.(columns := Cols), [Toast("Success", RefreshedMessage, Success)])
  }

  /** `performSearch`, given the reply of the call it makes: the search when
      the key is non-empty, the refresh fetch otherwise. */
  function PerformSearch(v: View, reply: Result<seq<Record>>): (r: Step)
    requires v.pageSize > 0
    ensures r.view.searchPending == v.searchPending
    ensures Consistent(v) ==> Consistent(r.view)
    ensures v.searchKey == "" ==> !r.view.searchResults && r.view.searchMessage == Blank
    ensures v.searchKey == "" ==> r == Refresh(v, reply)
    ensures v.searchKey != "" && reply.Ok? ==>
      && r.view.searchResults
      && r.view.contactsList == reply.value && r.view.totalRecords == |reply.value|
      && r.view.columns == (if reply.value != [] then SearchCols else v.columns)
      && r.view.searchMessage == (if reply.value != [] then Fetched(|reply.value|) else NotFound(v.searchKey))
      && r.view.searchKey == v.searchKey
      && Settled(r.view) && r.toasts == []
    ensures v.searchKey != "" && reply.Ok? ==>
      Repaged(v.(searchResults := true,
                 searchMessage := if reply.value != [] then Fetched(|reply.value|) else NotFound(v.searchKey),
                 columns := if reply.value != [] then SearchCols else v.columns,
                 contactsList := reply.value, totalRecords := |reply.value|), r.view)
    ensures v.searchKey != "" && reply.Err? ==> r.view == v && r.toasts == [ErrorToast(reply.message)]
  {
    if v.searchKey != "" then
      match reply
      case Err(message) => Step(v, [ErrorToast(message)])
      case Ok(result) =>
        if |result| > 0 then
          Step(Paginate(v.(searchResults := true, searchMessage := Fetched(|result|), columns := SearchCols,
                           contactsList := result, totalRecords := |result|)), [])
        else
          Step(Paginate(v.(searchResults := true, searchMessage := NotFound(v.searchKey),
                           contactsList := [], totalRecords := 0)), [])
    else Refresh(v, reply)
  }

  /** `handleSearch`: a non-empty key (re)arms the single debounce timer; an
      empty key goes straight to the refresh, given its fetch reply, and
      leaves a timer that is still set armed. */
  function Search(v: View, key: string, reply: Result<seq<Record>>): (r: Step)
    requires v.pageSize > 0
    ensures r.view.searchKey == key
    ensures Consistent(v) ==> Consistent(r.view)
    ensures key != "" ==> r.view == v.(searchKey := key, searchPending := true) && r.toasts == []
    ensures key == "" ==> !r.view.searchResults && r.view.searchMessage == Blank && r.view.searchPending == v.searchPending
    ensures key == "" ==> r == Refresh(v.(searchKey := ""), reply)
  {
    var keyed := v.(searchKey := key);
    if key != "" then Step(keyed.(searchPending := true), [])
    else Refresh(keyed, reply)
  }

  /** The debounce timer fires: the slot empties and the search runs with the
      key current at that moment. */
  function SearchTimerFires(v: View, reply: Result<seq<Record>>): (r: Step)
    requires v.pageSize > 0 && v.searchPending
    ensures !r.view.searchPending
    ensures r == PerformSearch(v.(searchPending := false), reply)
    ensures Consistent(v) ==> Consistent(r.view)
  {
    PerformSearch(v.(searchPending := false), reply)
  }

  const AssignedMessage := "Successfully assigned Contact to current Account Record"

  /** The one row `handleAssignToAccount` sends: the contact's Id and the
      current account. */
  function AssignPayload(v: View, row: Record): (rows: seq<Draft>)
    ensures |rows| == 1 && rows[0].Keys == {"Id", "AccountId"}
    ensures rows[0]["Id"] == row.id && rows[0]["AccountId"] == v.recordId
  {
    [map["Id" := row.id, "AccountId" := v.recordId]]
  }

  /** `handleAssignToAccount`, given the upsert reply: whatever the status
      tag says, the search is cleared and the standard columns return; the
      toast always claims the assignment succeeded, with the tag as title. */
  function Assign(v: View, reply: Result<seq<string>>): (r: Step)
    requires v.pageSize > 0
    ensures Consistent(v) ==> Consistent(r.view)
    ensures reply.Err? ==> r.view == v && r.toasts == [ErrorToast(reply.message)]
    ensures reply.Ok? && reply.value == [] ==> r.view == v && r.toasts == []
    ensures reply.Ok? && reply.value != [] ==>
      && r.view.columns == Cols && r.view.searchKey == "" && !r.view.searchResults
      && r.view.searchMessage == Blank && r.view.contactsList == v.contactsList && Settled(r.view)
      && Repaged(v.(columns := Cols, searchKey := "", searchResults := false, searchMessage := Blank), r.view)
      && r.toasts == [Toast(reply.value[0], AssignedMessage,
                            if IsSuccessTag(reply.value[0]) then Success else Error)]
  {
    match reply
    case Err(message) => Step(v, [ErrorToast(message)])
    case Ok(result) =>
      if |result| == 0 then Step(v, [])
      else
        var toast := Toast(result[0], AssignedMessage, if IsSuccessTag(result[0]) then Success else Error);
        Step(Paginate(v.(columns := Cols, searchKey := "", searchResults := false, searchMessage := Blank)), [toast])
  }

  // ---------------------------------------------------------------------
  // The draft "new contacts" array

  /** `handleAddContact`: one blank contact appended, the form shown. */
  function AddContact(v: View): (r: View)
    ensures |r.contacts| == |v.contacts| + 1
    ensures r.contacts[..|v.contacts|] == v.contacts
    ensures r.contacts[|v.contacts|] == BlankContact(v.recordId)
    ensures r.showInputField
    ensures r == v.(contacts := r.contacts, showInputField := true)
  {
    v.(showInputField := true, contacts := v.contacts + [BlankContact(v.recordId)])
  }

  /** `handleRemoveContact`: splice one element out at `index`; the form
      stays shown while drafts remain. */
  function RemoveContact(v: View, index: int): (r: View)
    ensures r.showInputField <==> r.contacts != []
    ensures 0 <= index < |v.contacts| ==>
      |r.contacts| == |v.contacts| - 1 && r.contacts == v.contacts[..index] + v.contacts[index + 1..]
    ensures index >= |v.contacts| ==> r.contacts == v.contacts
    ensures r == v.(contacts := r.contacts, showInputField := r.showInputField)
  {
    var left := SpliceOne(v.contacts, index);
    v.(contacts := left, showInputField := |left| != 0)
  }

  /** Whether `this.contacts[index]` is undefined, so that the field write
      of `handleInputChange` throws a TypeError. */
  predicate InputChangeThrows(v: View, index: int)
  {
    !(0 <= index < |v.contacts|)
  }

  /** `handleInputChange`: one field of one draft is written; on a missing
      draft the handler throws and nothing changes. */
  function InputChange(v: View, index: int, field: string, value: string): (r: View)
    ensures InputChangeThrows(v, index) ==> r == v
    ensures !InputChangeThrows(v, index) ==>
      && r == v.(contacts := r.contacts)
      && |r.contacts| == |v.contacts|
      && (forall k :: 0 <= k < |r.contacts| && k != index ==> r.contacts[k] == v.contacts[k])
      && r.contacts[index] == v.contacts[index][field := value]
  {
    if InputChangeThrows(v, index) then v
    else v.(contacts := SetField(v.contacts, index, field, value))
  }
}
