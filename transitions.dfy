/**
 * The component's state as a value, and each event handler as a transition from
 * the snapshot a render saw to the state the next render sees.  A handler reads
 * every value from that snapshot, as React state setters do.
 */
module Transitions {
  import opened Records
  import opened Views

  /** The five `useState` cells of the component. */
  datatype State = State(
    data: seq<UserData>,
    formData: UserData,
    editIndex: Option<int>,
    currentPage: int,
    searchQuery: string)

  /** The initial values of the five cells. */
  const Initial := State([], EmptyRecord, None, 1, "")

  /** The edit cursor, when set, names a row of the list. */
  predicate CursorValid(s: State)
  {
    s.editIndex.Some? ==> 0 <= s.editIndex.value < |s.data|
  }

  /** The page cursor is a page of the unfiltered list, page 1 when the list is empty. */
  predicate PageInRange(s: State)
  {
    1 <= s.currentPage <= Max(1, PageCount(|s.data|))
  }

  /** `handleChange`: a field edit goes to the row under edit, or else to the draft. */
  function Changed(s: State, name: Field, value: string): (r: State)
    requires CursorValid(s)
    ensures r.editIndex == s.editIndex && r.currentPage == s.currentPage && r.searchQuery == s.searchQuery
    ensures s.editIndex.Some? ==>
      var e := s.editIndex.value;
      |r.data| == |s.data| && r.formData == s.formData &&
      Get(r.data[e], name) == value &&
      (forall g :: g != name ==> Get(r.data[e], g) == Get(s.data[e], g)) &&
      (forall j :: 0 <= j < |s.data| && j != e ==> r.data[j] == s.data[j])
    ensures s.editIndex.None? ==>
      r.data == s.data &&
      Get(r.formData, name) == value &&
      (forall g :: g != name ==> Get(r.formData, g) == Get(s.formData, g))
  {
    match s.editIndex
    case Some(e) => s.(data := s.data[e := WithField(s.data[e], name, value)])
    case None => s.(formData := WithField(s.formData, name, value))
  }

  /**
   * `handleSubmit`: closes an edit, or appends the draft, clears it and moves to
   * the page that holds the new row.
   */
  function Submitted(s: State): (r: State)
    ensures s.editIndex.Some? ==> r == s.(editIndex := None)
    ensures s.editIndex.None? ==>
      |r.data| == |s.data| + 1 &&
      r.data[..|s.data|] == s.data &&
      r.data[|s.data|] == s.formData &&
      r.formData == EmptyRecord &&
      r.editIndex == None &&
      r.searchQuery == s.searchQuery &&
      r.currentPage == PageCount(|r.data|) &&
      IndexOfFirstRow(r.currentPage) <= |s.data| < IndexOfLastRow(r.currentPage)
  {
    if s.editIndex.Some? then s.(editIndex := None)
    else
      var newData := s.data + [s.formData];
      State(newData, EmptyRecord, None, PageCount(|newData|), s.searchQuery)
  }

  /** `handleEdit`: puts row `index` under edit; nothing else changes. */
  function Edited(s: State, index: int): (r: State)
    ensures r.editIndex == Some(index)
    ensures r.data == s.data && r.formData == s.formData
    ensures r.currentPage == s.currentPage && r.searchQuery == s.searchQuery
  {
    s.(editIndex := Some(index))
  }

  /** `data.filter((_, i) => i !== index)`. */
  function WithoutIndex<T>(s: seq<T>, index: int): (r: seq<T>)
    ensures 0 <= index < |s| ==> r == s[..index] + s[index + 1..]
    ensures !(0 <= index < |s|) ==> r == s
    decreases |s|
  {
    if s == [] then []
    else
      var init, last := s[..|s| - 1], s[|s| - 1];
      assert s == init + [last];
      var rest := WithoutIndex(init, index);
      if |s| - 1 == index then rest
      else
        assert 0 <= index < |init| ==> init[..index] == s[..index] && init[index + 1..] + [last] == s[index + 1..];
        rest + [last]
  }

  /**
   * `handleDelete`: removes row `index`; clears the query once the list is empty;
   * steps back one page when the new length is strictly below the first row of
   * the page the render showed.  The edit cursor is left as it was.
   */
  function Deleted(s: State, index: int): (r: State)
    ensures 0 <= index < |s.data| ==> r.data == s.data[..index] + s.data[index + 1..]
    ensures !(0 <= index < |s.data|) ==> r.data == s.data
    ensures r.searchQuery == (if r.data == [] then "" else s.searchQuery)
    ensures r.formData == s.formData && r.editIndex == s.editIndex
    ensures r.currentPage == s.currentPage || r.currentPage == s.currentPage - 1
    ensures r.currentPage < s.currentPage <==>
      s.currentPage > 1 && |r.data| < (s.currentPage - 1) * RowsPerPage
    ensures s.currentPage >= 1 ==> r.currentPage >= 1
  {
    var newData := WithoutIndex(s.data, index);
    var query := if |newData| == 0 then "" else s.searchQuery;
    var page :=
      if s.currentPage > 1 && |newData| < IndexOfFirstRow(s.currentPage) then s.currentPage - 1
      else s.currentPage;
    State(newData, s.formData, s.editIndex, page, query)
  }

  /** `handlePageChange`: moves to page `pageNumber` with no bounds check. */
  function PageChanged(s: State, pageNumber: int): (r: State)
    ensures r.currentPage == pageNumber
    ensures r.data == s.data && r.formData == s.formData
    ensures r.editIndex == s.editIndex && r.searchQuery == s.searchQuery
  {
    s.(currentPage := pageNumber)
  }

  /** `handleSearchChange`: stores the query; the page is left where it was. */
  function SearchChanged(s: State, value: string): (r: State)
    ensures r.searchQuery == value
    ensures r.data == s.data && r.formData == s.formData
    ensures r.editIndex == s.editIndex && r.currentPage == s.currentPage
  {
    s.(searchQuery := value)
  }

  /** `handleSearch`: returns to the first page; the filter itself is derived on every render. */
  function Searched(s: State): (r: State)
    ensures r.currentPage == 1
    ensures r.data == s.data && r.formData == s.formData
    ensures r.editIndex == s.editIndex && r.searchQuery == s.searchQuery
  {
    s.(currentPage := 1)
  }

  /** After an add the new row is on the page shown, as its last row. */
  lemma AddShowsNewRow(s: State)
    requires s.editIndex.None?
    ensures var r := Submitted(s);
      r.searchQuery == "" ==>
      var rows := CurrentData(r.data, r.searchQuery, r.currentPage);
      rows != [] && rows[|rows| - 1] == s.formData
  {
  }

  /** After a search the table shows the first (at most five) matches. */
  lemma SearchShowsFirstMatches(s: State)
    ensures var r := Searched(s);
      CurrentData(r.data, r.searchQuery, r.currentPage) ==
      Visible(s.data, s.searchQuery)[..Min(RowsPerPage, TotalItems(s.data, s.searchQuery))]
  {
  }

  /** Every transition but a delete, and a page change to a listed page, keeps the page in range. */
  lemma PageInRangeKept(s: State, name: Field, value: string, index: int, pageNumber: int)
    requires PageInRange(s) && CursorValid(s)
    ensures PageInRange(Changed(s, name, value))
    ensures PageInRange(Submitted(s))
    ensures PageInRange(Edited(s, index))
    ensures 1 <= pageNumber <= PageCount(|s.data|) ==> PageInRange(PageChanged(s, pageNumber))
    ensures PageInRange(SearchChanged(s, value))
    ensures PageInRange(Searched(s))
  {
  }

  /**
   * Every transition but a delete keeps the edit cursor on a row of the list; so
   * does an Edit button, whose row position is never past the list, since the
   * filtered list is never longer than the full one.
   */
  lemma CursorValidKept(s: State, name: Field, value: string, page: int, offset: int, pageNumber: int)
    requires CursorValid(s)
    ensures CursorValid(Changed(s, name, value))
    ensures CursorValid(Submitted(s))
    ensures CursorValid(PageChanged(s, pageNumber))
    ensures CursorValid(SearchChanged(s, value))
    ensures CursorValid(Searched(s))
    ensures page >= 1 && 0 <= offset < |CurrentData(s.data, s.searchQuery, page)| ==>
      CursorValid(Edited(s, RowIndex(page, offset)))
  {
  }

  /**
   * From a page in range, deleting an existing row never moves the page: the
   * new length is at least the first row index of any page in range.
   */
  lemma DeleteKeepsPageFromValidPage(s: State, index: int)
    requires PageInRange(s) && 0 <= index < |s.data|
    ensures Deleted(s, index).currentPage == s.currentPage
  {
  }

  /**
   * Closing an edit keeps the values typed during it, and editing the row again
   * shows them; this holds from add mode and while another row is under edit.
   */
  lemma EditSurvivesSubmit(s: State, index: int, name: Field, value: string)
    requires 0 <= index < |s.data|
    ensures var r := Edited(Submitted(Changed(Edited(s, index), name, value)), index);
      |r.data| == |s.data| && Get(r.data[index], name) == value && r.editIndex == Some(index)
  {
  }
}
