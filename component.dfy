/** The Contacts table component as an object: its fields, and its handlers
    as methods that update them step by step.  Each handler is proved to
    leave the state its transition in ContactsState describes, and to keep
    the component invariant `Valid()`. */
module ContactsComponent {
  import opened Wrappers
  import opened Pagination
  import opened Text
  import opened Drafts
  import opened ContactsState

  class ContactsDataTable {
    const recordId: string
    var searchMessage: SearchMessage
    var contacts: seq<Draft>
    var searchKey: string
    var columns: Columns
    var searchResults: bool
    var showInputField: bool
    var pageSize: int
    var totalPages: int
    var pageNumber: int
    var totalRecords: nat
    var contactsList: seq<Record>
    var draftValues: seq<Draft>
    var recordsToDisplay: seq<Option<Record>>
    /** Whether the debounce timer is set and has not fired yet. */
    var searchPending: bool

    /** The fields, as one value. */
    function State(): View
      reads this
    {
      View(recordId, searchMessage, contacts, searchKey, columns, searchResults, showInputField,
           pageSize, totalPages, pageNumber, totalRecords, contactsList, draftValues,
           recordsToDisplay, searchPending)
    }

    ghost predicate Valid()
      reads this
    {
      Consistent(State())
    }

    /** Field initialisers, then `connectedCallback` picks the first page-size
        option. */
    constructor (recordId: string)
      ensures State() == Initial(recordId) && Valid()
    {
      this.recordId := recordId;
      searchMessage := Blank;
      contacts := [];
      searchKey := "";
      columns := Cols;
      searchResults := false;
      showInputField := false;
      totalPages := 0;
      pageNumber := 1;
      totalRecords := 0;
      contactsList := [];
      draftValues := [];
      recordsToDisplay := [];
      searchPending := false;
      pageSize := 5;
    }

    /** `paginationHelper`. */
    method PaginationHelper()
      requires pageSize > 0
      modifies this
      ensures State() == Paginate(old(State()))
    {
      recordsToDisplay := [];
      totalPages := TotalPages(totalRecords, pageSize);
      if pageNumber <= 1 {
        pageNumber := 1;
      } else if pageNumber >= totalPages {
        pageNumber := totalPages;
      }
      recordsToDisplay := CopyPage(contactsList, totalRecords, pageNumber, pageSize);
    }

    method PreviousPage()
      requires Valid()
      modifies this
      ensures Valid() && State() == ContactsState.PreviousPage(old(State()))
    {
      pageNumber := pageNumber - 1;
      PaginationHelper();
    }

    method NextPage()
      requires Valid()
      modifies this
      ensures Valid() && State() == ContactsState.NextPage(old(State()))
    {
      pageNumber := pageNumber + 1;
      PaginationHelper();
    }

    method FirstPage()
      requires Valid()
      modifies this
      ensures Valid() && State() == ContactsState.FirstPage(old(State()))
    {
      pageNumber := 1;
      PaginationHelper();
    }

    method LastPage()
      requires Valid()
      modifies this
      ensures Valid() && State() == ContactsState.LastPage(old(State()))
    {
      pageNumber := totalPages;
      PaginationHelper();
    }

    /** `handleRecordsPerPage`, with the option's value as a number. */
    method HandleRecordsPerPage(value: int)
      requires Valid() && value > 0
      modifies this
      ensures Valid() && State() == RecordsPerPage(old(State()), value)
    {
      pageSize := value;
      PaginationHelper();
    }

    /** The getter `DisableFirst`: in a valid state, on exactly when
        "previous" would not move the page. */
    function DisableFirst(): (disabled: bool)
      reads this
      ensures Valid() ==> (disabled <==> ContactsState.PreviousPage(State()).pageNumber == pageNumber)
    {
      ContactsState.DisableFirst(State())
    }

    /** The getter `DisableLast`: in a valid state on a page from 1 up, on
        exactly when "next" would not move the page. */
    function DisableLast(): (disabled: bool)
      reads this
      ensures Valid() && pageNumber >= 1 ==> (disabled <==> ContactsState.NextPage(State()).pageNumber == pageNumber)
    {
      ContactsState.DisableLast(State())
    }

    /** `wiredContacts`. */
    method WiredContacts(wire: WireResult)
      requires Valid()
      modifies this
      ensures Valid() && State() == Wired(old(State()), wire)
    {
      match wire {
        case Data(list) =>
          totalRecords := |list|;
          contactsList := list;
          PaginationHelper();
        case _ =>
      }
    }

    /** `handleSave`: returns the rows sent to the upsert (`None` for
        `null`) and the toasts dispatched. */
    method HandleSave(operation: string, editedRows: seq<Draft>,
                      reply: Result<seq<string>>, searchReply: Result<seq<Record>>)
      returns (sent: Option<seq<Draft>>, toasts: seq<Toast>)
      requires Valid()
      modifies this
      ensures Valid()
      ensures sent == UpsertPayload(operation, old(contacts), editedRows)
      ensures State() == Save(old(State()), operation, reply, searchReply).view
      ensures toasts == Save(old(State()), operation, reply, searchReply).toasts
    {
      sent := UpsertPayload(operation, contacts, editedRows);
      draftValues := [];
      toasts := [];
      match reply {
        case Err(message) =>
          toasts := [ErrorToast(message)];
        case Ok(result) =>
          if |result| == 0 {
            // result[0].toLowerCase() throws, and so does the catch block
            return;
          }
          toasts := [SaveToast(result)];
          if IsSuccessTag(result[0]) {
            var more := ApplySavedChanges(operation, searchReply);
            toasts := toasts + more;
          }
      }
    }

    /** The success branch of `handleSave`. */
    method ApplySavedChanges(operation: string, searchReply: Result<seq<Record>>) returns (toasts: seq<Toast>)
      requires pageSize > 0
      modifies this
      ensures State() == SaveSucceeded(old(State()), operation, searchReply).view
      ensures toasts == SaveSucceeded(old(State()), operation, searchReply).toasts
    {
      ghost var v := State();
      toasts := [];
      if operation == "Inserted" {
        contacts := [];
        showInputField := false;
        columns := Cols;
        searchKey := "";
        searchMessage := Blank;
        PaginationHelper();
      }
      ghost var inserted := State();
      assert inserted == if operation == "Inserted" then
        Paginate(v.(contacts := [], showInputField := false, columns := Cols,
                    searchKey := "", searchMessage := Blank))
        else v;
      if searchResults && operation == "Updated" {
        match searchReply {
          case Ok(list) =>
            contactsList := list;
            PaginationHelper();
          case Err(_) =>
            toasts := [ErrorToast(SearchRefreshFailed)];
        }
      }
      ghost var refreshed := State();
      totalRecords := |contactsList|;
      assert State() == refreshed.(totalRecords := |refreshed.contactsList|);
      PaginationHelper();
    }

    /** `handleSearch`: the reply is that of the refresh fetch, used only
        for an empty key. */
    method HandleSearch(value: string, reply: Result<seq<Record>>) returns (toasts: seq<Toast>)
      requires Valid()
      modifies this
      ensures Valid()
      ensures State() == Search(old(State()), value, reply).view
      ensures toasts == Search(old(State()), value, reply).toasts
    {
      searchKey := value;
      toasts := [];
      if searchKey != "" {
        // clearTimeout on the old timer, setTimeout for a new one
        searchPending := true;
      } else {
        toasts := HandleRefresh(reply);
      }
    }

    /** The debounce timer's callback. */
    method SearchTimerFires(reply: Result<seq<Record>>) returns (toasts: seq<Toast>)
      requires Valid() && searchPending
      modifies this
      ensures Valid()
      ensures State() == ContactsState.SearchTimerFires(old(State()), reply).view
      ensures toasts == ContactsState.SearchTimerFires(old(State()), reply).toasts
    {
      searchPending := false;
      toasts := PerformSearch(reply);
    }

    /** `performSearch`: the reply is that of the call it makes, the search
        or, for an empty key, the refresh fetch. */
    method PerformSearch(reply: Result<seq<Record>>) returns (toasts: seq<Toast>)
      requires Valid()
      modifies this
      ensures Valid()
      ensures State() == ContactsState.PerformSearch(old(State()), reply).view
      ensures toasts == ContactsState.PerformSearch(old(State()), reply).toasts
    {
      if searchKey != "" {
        match reply {
          case Err(message) =>
            toasts := [ErrorToast(message)];
          case Ok(result) =>
            toasts := [];
            if |result| > 0 {
              searchResults := true;
              searchMessage := Fetched(|result|);
              columns := SearchCols;
              contactsList := result;
              totalRecords := |result|;
              PaginationHelper();
            } else {
              searchResults := true;
              searchMessage := NotFound(searchKey);
              contactsList := [];
              totalRecords := 0;
              PaginationHelper();
            }
        }
      } else {
        toasts := HandleRefresh(reply);
      }
    }

    /** `handleRefresh`. */
    method HandleRefresh(reply: Result<seq<Record>>) returns (toasts: seq<Toast>)
      requires Valid()
      modifies this
      ensures Valid()
      ensures State() == Refresh(old(State()), reply).view
      ensures toasts == Refresh(old(State()), reply).toasts
    {
      ghost var v := State();
      searchResults := false;
      searchMessage := Blank;
      ghost var cleared := v.(searchResults := false, searchMessage := Blank);
      assert State() == cleared;
      match reply {
        case Err(message) =>
          toasts := [ErrorToast(message)];
        case Ok(list) =>
          toasts := [Toast("Success", RefreshedMessage, Success)];
          searchKey := "";
          contactsList := list;
          totalRecords := |list|;
          ghost var fetched := cleared.(searchKey := "", contactsList := list, totalRecords := |list|);
          assert State() == fetched;
          PaginationHelper();
          columns := Cols;
          assert State() == Paginate(fetched).(columns := Cols);
      }
    }

    /** `handleAssignToAccount`: returns the row sent to the upsert and the
        toasts dispatched. */
    method HandleAssignToAccount(row: Record, reply: Result<seq<string>>)
      returns (sent: seq<Draft>, toasts: seq<Toast>)
      requires Valid()
      modifies this
      ensures Valid()
      ensures sent == AssignPayload(old(State()), row)
      ensures State() == Assign(old(State()), reply).view
      ensures toasts == Assign(old(State()), reply).toasts
    {
      sent := [map["Id" := row.id, "AccountId" := recordId]];
      match reply {
        case Err(message) =>
          toasts := [ErrorToast(message)];
        case Ok(result) =>
          if |result| == 0 {
            // result[0].toLowerCase() throws, and so does the catch block
            toasts := [];
            return;
          }
          var variant := if IsSuccessTag(result[0]) then Success else Error;
          toasts := [Toast(result[0], AssignedMessage, variant)];
          columns := Cols;
          searchKey := "";
          searchResults := false;
          searchMessage := Blank;
          PaginationHelper();
      }
    }

    /** `handleInputChange`: `thrown` when `contacts[index]` is undefined
        and the write raises a TypeError. */
    method HandleInputChange(index: int, field: string, value: string) returns (thrown: bool)
      requires Valid()
      modifies this
      ensures Valid()
      ensures thrown == InputChangeThrows(old(State()), index)
      ensures State() == InputChange(old(State()), index, field, value)
    {
      thrown := !(0 <= index < |contacts|);
      if !thrown {
        contacts := contacts[index := contacts[index][field := value]];
      }
    }

    /** `handleAddContact`; `contacts.length != null` always holds, so the
        form is always shown. */
    method HandleAddContact()
      requires Valid()
      modifies this
      ensures Valid() && State() == AddContact(old(State()))
    {
      showInputField := true;
      contacts := contacts + [BlankContact(recordId)];
    }

    /** `handleRemoveContact`. */
    method HandleRemoveContact(index: int)
      requires Valid()
      modifies this
      ensures Valid() && State() == RemoveContact(old(State()), index)
    {
      contacts := SpliceOne(contacts, index);
      showInputField := |contacts| != 0;
    }
  }
}
