/** The company table component as a state machine: its state, the
    handlers that change it, and the values derived from it for display.
    Every network request's outcome is a parameter: whether the request
    succeeded, and what the list request that follows it returned. */
module CompanyTable {
  import opened Wrappers
  import opened Text
  import opened Csv
  import opened Pagination
  import opened Selection
  import opened UrlValidation

  const InvalidUrlMessage: string := "Please enter a valid domain URL."
  const AddedMessage: string := "Company metadata successfully added."

  /** The component's state. The visible page and the page count are not
      stored: the page effect recomputes them whenever the list or the
      offset changes, so they are functions of the state below. */
  datatype TableState = TableState(
    companies: seq<Record>,
    itemOffset: nat,
    selectedIds: seq<Value>,
    urlInput: string,
    errorMessage: string,
    successMessage: string)

  /** The state on first render. */
  const Initial := TableState([], 0, [], "", "", "")

  /** `item.id`. */
  function IdOf(rec: Record): Value
  {
    Lookup(rec, "id")
  }

  /** `currentItems`: the window of the list at the offset. */
  function CurrentItems(st: TableState): seq<Record>
  {
    PageWindow(st.companies, st.itemOffset)
  }

  /** `pageCount`. */
  function ShownPageCount(st: TableState): nat
  {
    PageCount(|st.companies|)
  }

  /** `currentItems.map((item) => item.id)`. */
  function CurrentIds(st: TableState): (ids: seq<Value>)
    ensures |ids| == |CurrentItems(st)|
    ensures forall i :: 0 <= i < |ids| ==> ids[i] == IdOf(CurrentItems(st)[i])
  {
    var items := CurrentItems(st);
    seq(|items|, i requires 0 <= i < |items| => IdOf(items[i]))
  }

  /** The header checkbox's `checked`: the page shows at least one record
      and every record on it has its id selected. */
  function HeaderChecked(st: TableState): (checked: bool)
    ensures checked <==> |CurrentItems(st)| > 0
                         && forall i :: 0 <= i < |CurrentItems(st)| ==> IdOf(CurrentItems(st)[i]) in st.selectedIds
  {
    AllSelected(CurrentIds(st), st.selectedIds)
  }

  /** `fetchCompanies` settling: a response replaces the list, a failure is
      only logged. Nothing but the list changes. */
  function ListLoaded(st: TableState, response: Option<seq<Record>>): (st': TableState)
    ensures st' == st.(companies := st'.companies)
    ensures response.Some? ==> st'.companies == response.value
    ensures response.None? ==> st' == st
  {
    match response
    case Some(list) => st.(companies := list)
    case None => st
  }

  /** `handlePageClick`: the offset moves inside the list, and clicking a
      page number the paginator offers shows exactly that page. */
  function PageClicked(st: TableState, selected: nat): (st': TableState)
    requires |st.companies| > 0
    ensures st' == st.(itemOffset := st'.itemOffset)
    ensures st'.itemOffset < |st.companies|
    ensures |CurrentItems(st')| > 0
    ensures selected < ShownPageCount(st) ==> CurrentItems(st') == Pages(st.companies)[selected]
  {
    PagesTileList(st.companies);
    st.(itemOffset := PageClickOffset(selected, |st.companies|))
  }

  /** The row checkbox of the record with id `id`: flips that id's
      selection and nothing else. */
  function RowToggled(st: TableState, id: Value): (st': TableState)
    ensures st' == st.(selectedIds := st'.selectedIds)
    ensures id in st'.selectedIds <==> id !in st.selectedIds
    ensures forall x :: x != id ==> (x in st'.selectedIds <==> x in st.selectedIds)
    ensures NoDuplicates(st.selectedIds) ==> NoDuplicates(st'.selectedIds)
  {
    st.(selectedIds := Toggle(st.selectedIds, id))
  }

  /** The header checkbox: checking it adds the page's ids and leaves it
      shown as checked (when the page has rows); clearing it removes the
      page's ids and leaves it shown as unchecked. */
  function HeaderChanged(st: TableState, checked: bool): (st': TableState)
    ensures st' == st.(selectedIds := st'.selectedIds)
    ensures checked ==> forall x :: x in st'.selectedIds <==> x in st.selectedIds || x in CurrentIds(st)
    ensures !checked ==> forall x :: x in st'.selectedIds <==> x in st.selectedIds && x !in CurrentIds(st)
    ensures checked && |CurrentItems(st)| > 0 ==> HeaderChecked(st')
    ensures !checked ==> !HeaderChecked(st')
    ensures NoDuplicates(st.selectedIds) ==> NoDuplicates(st'.selectedIds)
  {
    var ids := CurrentIds(st);
    st.(selectedIds := if checked then SelectPage(st.selectedIds, ids) else DeselectPage(st.selectedIds, ids))
  }

  /** Checking the header and then clearing it again on the same page gives
      back the earlier selection minus the page's ids, in its order. */
  lemma HeaderCheckThenClear(st: TableState)
    requires NoDuplicates(st.selectedIds)
    ensures HeaderChanged(HeaderChanged(st, true), false).selectedIds
            == DeselectPage(st.selectedIds, CurrentIds(st))
  {
    SelectThenDeselect(st.selectedIds, CurrentIds(st));
  }

  /** `handleDeleteSelected`. With nothing selected no request is sent and
      nothing changes. Otherwise the selected ids are sent; on success the
      list is reloaded and the selection cleared, on failure nothing
      changes. Returns the new state and the ids sent, if any. */
  function DeleteSelected(st: TableState, deleted: bool, reloaded: Option<seq<Record>>)
    : (out: (TableState, Option<seq<Value>>))
    ensures out.1.Some? <==> |st.selectedIds| > 0
    ensures out.1.Some? ==> out.1.value == st.selectedIds
    ensures out.1.None? || !deleted ==> out.0 == st
    ensures out.1.Some? && deleted ==>
              && out.0.selectedIds == []
              && out.0 == st.(companies := out.0.companies, selectedIds := [])
              && out.0.companies == (if reloaded.Some? then reloaded.value else st.companies)
  {
    if |st.selectedIds| == 0 then (st, None)
    else if deleted then (ListLoaded(st, reloaded).(selectedIds := []), Some(st.selectedIds))
    else (st, Some(st.selectedIds))
  }

  /** `handleAddCompany`. The input is trimmed; a blank or malformed URL
      sets the validation message and sends nothing. Otherwise the trimmed
      URL is posted; on success the input is cleared, the success message
      shown and the list reloaded; on failure (only logged) just the
      messages are cleared. Returns the new state and the URL posted, if
      any. */
  function AddCompany(st: TableState, posted: bool, reloaded: Option<seq<Record>>)
    : (out: (TableState, Option<string>))
    ensures out.1.Some? <==> MatchesUrlPattern(Trim(st.urlInput))
    ensures IsBlank(st.urlInput) ==> out.1.None?
    ensures out.1.Some? ==> out.1.value == Trim(st.urlInput)
    ensures out.1.None? ==> out.0 == st.(errorMessage := InvalidUrlMessage)
    ensures out.1.Some? && !posted ==> out.0 == st.(errorMessage := "", successMessage := "")
    ensures out.1.Some? && posted ==>
              && out.0 == st.(companies := out.0.companies, urlInput := "", errorMessage := "", successMessage := AddedMessage)
              && out.0.companies == (if reloaded.Some? then reloaded.value else st.companies)
  {
    var url := Trim(st.urlInput);
    IsValidUrlMatchesPattern(url);
    if |url| == 0 || !IsValidUrl(url) then (st.(errorMessage := InvalidUrlMessage), None)
    else if posted then
      (ListLoaded(st.(urlInput := "", errorMessage := "", successMessage := AddedMessage), reloaded), Some(url))
    else (st.(errorMessage := "", successMessage := ""), Some(url))
  }

  /** The user actions and request completions the component reacts to. */
  datatype Event =
    | Loaded(response: Option<seq<Record>>)
    | InputChanged(text: string)
    | PageClick(selected: nat)
    | RowToggle(id: Value)
    | HeaderChange(checked: bool)
    | DeleteClick(deleted: bool, reloaded: Option<seq<Record>>)
    | AddClick(posted: bool, reloaded: Option<seq<Record>>)

  /** The state after one event. The paginator offers no page for an empty
      list, so a page click then changes nothing. */
  function Apply(st: TableState, ev: Event): TableState
  {
    match ev
    case Loaded(response) => ListLoaded(st, response)
    case InputChanged(text) => st.(urlInput := text)
    case PageClick(selected) => if |st.companies| > 0 then PageClicked(st, selected) else st
    case RowToggle(id) => RowToggled(st, id)
    case HeaderChange(checked) => HeaderChanged(st, checked)
    case DeleteClick(deleted, reloaded) => DeleteSelected(st, deleted, reloaded).0
    case AddClick(posted, reloaded) => AddCompany(st, posted, reloaded).0
  }

  /** The state after the events in order. */
  function Replay(st: TableState, events: seq<Event>): TableState
    decreases |events|
  {
    if |events| == 0 then st else Apply(Replay(st, events[..|events| - 1]), events[|events| - 1])
  }

  /** The selection array never holds an id twice, whatever happens, so it
      behaves as the set it stands for. */
  lemma {:induction false} SelectionStaysDuplicateFree(events: seq<Event>)
    ensures NoDuplicates(Replay(Initial, events).selectedIds)
    decreases |events|
  {
    if |events| > 0 {
      SelectionStaysDuplicateFree(events[..|events| - 1]);
      ApplyKeepsNoDuplicates(Replay(Initial, events[..|events| - 1]), events[|events| - 1]);
    }
  }

  /** No event puts an id into the selection twice. */
  lemma ApplyKeepsNoDuplicates(st: TableState, ev: Event)
    requires NoDuplicates(st.selectedIds)
    ensures NoDuplicates(Apply(st, ev).selectedIds)
  {
  }

  /** The offset survives a reload: when a successful delete reloads a
      list that ends at or before the current offset (say, after deleting
      every row of the last page), the offset stays where it was and the
      page on view is empty, even when the list still has records. */
  lemma DeleteCanLeaveEmptyPage(st: TableState, list: seq<Record>)
    requires |st.selectedIds| > 0 && |list| <= st.itemOffset
    ensures var st' := DeleteSelected(st, true, Some(list)).0;
            st'.itemOffset == st.itemOffset && st'.companies == list && CurrentItems(st') == []
  {
  }
}
