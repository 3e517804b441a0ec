/**
 * Three places where the delete and row handlers do not do what the component
 * evidently means to do.  Each is shown on a concrete state of the model as
 * written, next to a corrected definition with the intended property proved.
 * The component model itself keeps the code as written.
 */
module Findings {
  import opened Records
  import opened Views
  import opened Transitions

  const Row := UserData("A", "B", "a@b.com", "123")
  const Next := UserData("C", "D", "c@d.com", "456")

  /**
   * The page rule tests `newLength < indexOfFirstRow`.  From a page in range the
   * new length is never below the first row index, so deleting the one row of
   * the last page leaves the page cursor on a page with no rows.
   */
  lemma DeleteStrandsEmptyPage()
    ensures var s := State([Row, Row, Row, Row, Row, Row], EmptyRecord, None, 2, "");
      var r := Deleted(s, 5);
      PageInRange(s) && r.data != [] && r.currentPage == 2 && !PageInRange(r) &&
      CurrentData(r.data, r.searchQuery, r.currentPage) == []
  {
  }

  /**
   * Delete never moves the edit cursor.  Deleting the last row while it is under
   * edit leaves the cursor one past the list; deleting an earlier row under edit
   * leaves it on the record that followed.
   */
  lemma DeleteLeavesStaleCursor()
    ensures var s := State([Row], EmptyRecord, Some(0), 1, "");
      var r := Deleted(s, 0);
      CursorValid(s) && r.editIndex == Some(0) && !CursorValid(r)
    ensures var s := State([Row, Next], EmptyRecord, Some(0), 1, "");
      var r := Deleted(s, 0);
      r.editIndex == Some(0) && CursorValid(r) && r.data[0] == Next && s.data[0] == Row
  {
  }

  /**
   * While a query is entered the table lists filtered rows, but the buttons
   * pass a position in that filtered list to handlers that index the full list:
   * Delete on the only match, "Ann", removes "Bob" instead.
   */
  lemma RowActionHitsWrongRecord()
    ensures
      var ann, bob := UserData("Ann", "", "", ""), UserData("Bob", "", "", "");
      var s := State([bob, ann], EmptyRecord, None, 1, "ann");
      CurrentData(s.data, s.searchQuery, 1) == [ann] &&
      s.data[RowIndex(1, 0)] == bob &&
      Deleted(s, RowIndex(1, 0)).data == [ann]
  {
    var ann, bob := UserData("Ann", "", "", ""), UserData("Bob", "", "", "");
    assert Lower("ann") == "ann" && Lower("Ann") == "ann" && Lower("Bob") == "bob" && Lower("") == "";
    assert Includes("ann", "ann");
    assert "bob"[..3] != "ann" by { assert "bob"[0] != "ann"[0]; }
    assert !Includes("bob"[1..], "ann");
    assert !Includes("", "ann");
    assert !Matches(bob, "ann") && Matches(ann, "ann");
    assert [bob, ann][1..] == [ann] && [ann][1..] == [];
    assert FilterByName([ann], "ann") == [ann];
    assert FilterByName([bob, ann], "ann") == [ann];
  }

  /**
   * Corrected page rule: step back when the page the render showed has no row
   * left, so a page in range before a delete stays in range after it.
   */
  function CorrectedPage(newLength: nat, page: int): (p: int)
    ensures p == page || (p == page - 1 && p >= 1)
    ensures p < page <==> page > 1 && newLength <= (page - 1) * RowsPerPage
    ensures 1 <= page <= Max(1, PageCount(newLength + 1)) ==> 1 <= p <= Max(1, PageCount(newLength))
    ensures 1 <= page <= Max(1, PageCount(newLength)) ==> 1 <= p <= Max(1, PageCount(newLength))
  {
    if page > 1 && newLength <= IndexOfFirstRow(page) then page - 1 else page
  }

  /**
   * Corrected edit cursor after deleting row `index`: cleared when its own row
   * goes, one lower when an earlier row goes, and otherwise kept.
   */
  function CorrectedCursor(cursor: Option<int>, index: int): (c: Option<int>)
    ensures cursor.None? || cursor == Some(index) ==> c == None
    ensures cursor.Some? && 0 <= index < cursor.value ==> c == Some(cursor.value - 1)
    ensures cursor.Some? && index != cursor.value && !(0 <= index < cursor.value) ==> c == cursor
  {
    match cursor
    case None => None
    case Some(e) => if e == index then None else if 0 <= index < e then Some(e - 1) else Some(e)
  }

  /** The corrected cursor names, in the list without row `index`, the record it named before. */
  lemma CorrectedCursorFollowsRecord(data: seq<UserData>, cursor: Option<int>, index: int)
    ensures var c, rest := CorrectedCursor(cursor, index), WithoutIndex(data, index);
      (cursor.Some? ==> 0 <= cursor.value < |data|) ==> (c.Some? ==> 0 <= c.value < |rest|)
    ensures var c, rest := CorrectedCursor(cursor, index), WithoutIndex(data, index);
      cursor.Some? && 0 <= cursor.value < |data| && cursor.value != index ==>
      c.Some? && 0 <= c.value < |rest| && rest[c.value] == data[cursor.value]
  {
  }

  /** Corrected delete: `<=` in the page rule, and the edit cursor follows its row. */
  function DeletedCorrected(s: State, index: int): (r: State)
    ensures r.data == Deleted(s, index).data && r.searchQuery == Deleted(s, index).searchQuery
    ensures r.formData == s.formData
    ensures r.currentPage == s.currentPage || r.currentPage == s.currentPage - 1
    ensures r.currentPage < s.currentPage <==>
      s.currentPage > 1 && |r.data| <= (s.currentPage - 1) * RowsPerPage
    ensures PageInRange(s) ==> PageInRange(r)
    ensures CursorValid(s) ==> CursorValid(r)
    ensures s.editIndex.None? || s.editIndex == Some(index) ==> r.editIndex == None
    ensures s.editIndex.Some? && 0 <= index < s.editIndex.value ==>
      r.editIndex == Some(s.editIndex.value - 1)
    ensures s.editIndex.Some? && index != s.editIndex.value && !(0 <= index < s.editIndex.value) ==>
      r.editIndex == s.editIndex
    ensures CursorValid(s) && s.editIndex.Some? && s.editIndex.value != index ==>
      r.editIndex.Some? && CursorValid(r) && r.data[r.editIndex.value] == s.data[s.editIndex.value]
  {
    var newData := WithoutIndex(s.data, index);
    var query := if |newData| == 0 then "" else s.searchQuery;
    var page := CorrectedPage(|newData|, s.currentPage);
    CorrectedCursorFollowsRecord(s.data, s.editIndex, index);
    State(newData, s.formData, CorrectedCursor(s.editIndex, index), page, query)
  }

  /**
   * Without a query, the corrected delete steps back exactly when the page the
   * render showed has no row left, the very case the code as written misses.
   */
  lemma CorrectedDeleteLeavesNoEmptyPage(s: State, index: int)
    requires s.searchQuery == ""
    ensures var r := DeletedCorrected(s, index);
      r.currentPage < s.currentPage <==>
      s.currentPage > 1 && CurrentData(r.data, s.searchQuery, s.currentPage) == []
  {
    var r := DeletedCorrected(s, index);
    if s.currentPage > 1 {
      assert |CurrentData(r.data, s.searchQuery, s.currentPage)| ==
        Max(Min(RowsPerPage, |r.data| - IndexOfFirstRow(s.currentPage)), 0);
    }
  }

  /** The filter takes the first record if it matches, then filters the rest. */
  lemma FilterCons(data: seq<UserData>, query: string)
    requires data != []
    ensures FilterByName(data, query) ==
      (if Matches(data[0], query) then [data[0]] else []) + FilterByName(data[1..], query)
  {
  }

  /** Filtering a prefix of length `n + 1` takes the first record, then filters the rest's prefix of length `n`. */
  lemma FilterPrefixStep(data: seq<UserData>, query: string, n: nat)
    requires n < |data|
    ensures FilterByName(data[..n + 1], query) ==
      (if Matches(data[0], query) then [data[0]] else []) + FilterByName(data[1..][..n], query)
  {
    var prefix := data[..n + 1];
    assert prefix[0] == data[0] && prefix[1..] == data[1..][..n];
    FilterCons(prefix, query);
  }

  /**
   * The position in `data` of the `pos`-th record the name filter keeps: a
   * matching record with exactly `pos` matches before it.
   */
  function MatchIndex(data: seq<UserData>, query: string, pos: nat): (i: nat)
    requires pos < |FilterByName(data, query)|
    ensures i < |data| && data[i] == FilterByName(data, query)[pos] && Matches(data[i], query)
    ensures |FilterByName(data[..i], query)| == pos
    decreases |data|
  {
    FilterCons(data, query);
    if Matches(data[0], query) then
      if pos == 0 then
        assert data[..0] == [];
        0
      else
        var j := MatchIndex(data[1..], query, pos - 1);
        FilterPrefixStep(data, query, j);
        1 + j
    else
      var j := MatchIndex(data[1..], query, pos);
      FilterPrefixStep(data, query, j);
      1 + j
  }

  /**
   * Corrected row position: the index in `data` of the record shown at `offset`
   * on page `page`, so that Edit and Delete act on the row the user clicked.
   * Without a query that is the row's position in the table; with one, it is the
   * matching record with as many matches before it as there are rows before it.
   */
  function SourceIndex(s: State, page: int, offset: nat): (i: nat)
    requires page >= 1 && offset < |CurrentData(s.data, s.searchQuery, page)|
    ensures i < |s.data| && s.data[i] == CurrentData(s.data, s.searchQuery, page)[offset]
    ensures s.searchQuery == "" ==> i == RowIndex(page, offset)
    ensures s.searchQuery != "" ==>
      Matches(s.data[i], s.searchQuery) &&
      |FilterByName(s.data[..i], s.searchQuery)| == RowIndex(page, offset)
  {
    var pos := IndexOfFirstRow(page) + offset;
    if s.searchQuery != "" then MatchIndex(s.data, s.searchQuery, pos) else pos
  }

  /** Around a matching record, the filter keeps what it keeps on either side, and that record. */
  lemma FilterAroundMatch(data: seq<UserData>, query: string, i: nat)
    requires i < |data| && Matches(data[i], query)
    ensures FilterByName(data, query) ==
      FilterByName(data[..i], query) + [data[i]] + FilterByName(data[i + 1..], query)
    ensures FilterByName(data[..i] + data[i + 1..], query) ==
      FilterByName(data[..i], query) + FilterByName(data[i + 1..], query)
  {
    var tail := data[i..];
    assert tail[0] == data[i] && tail[1..] == data[i + 1..];
    FilterCons(tail, query);
    assert data == data[..i] + tail;
    FilterAppend(data[..i], tail, query);
    FilterAppend(data[..i], data[i + 1..], query);
  }

  /** Removing the `pos`-th match from `data` removes exactly entry `pos` of the filtered list. */
  lemma FilterWithoutMatch(data: seq<UserData>, query: string, pos: nat)
    requires pos < |FilterByName(data, query)|
    ensures FilterByName(WithoutIndex(data, MatchIndex(data, query, pos)), query) ==
      WithoutIndex(FilterByName(data, query), pos)
  {
    var i := MatchIndex(data, query, pos);
    FilterAroundMatch(data, query, i);
    var before, after := FilterByName(data[..i], query), FilterByName(data[i + 1..], query);
    var kept := FilterByName(data, query);
    assert |before| == pos && kept == before + [data[i]] + after;
    assert kept[..pos] == before && kept[pos + 1..] == after;
    assert WithoutIndex(data, i) == data[..i] + data[i + 1..];
  }

  /**
   * Deleting at the corrected position removes exactly the clicked row from the
   * list the table pages through, and no other.
   */
  lemma SourceIndexDeletesClickedRow(s: State, page: int, offset: nat)
    requires page >= 1 && offset < |CurrentData(s.data, s.searchQuery, page)|
    ensures Visible(Deleted(s, SourceIndex(s, page, offset)).data, s.searchQuery) ==
      WithoutIndex(Visible(s.data, s.searchQuery), RowIndex(page, offset))
  {
    var i, pos := SourceIndex(s, page, offset), RowIndex(page, offset);
    assert pos < |Visible(s.data, s.searchQuery)|;
    assert Deleted(s, i).data == WithoutIndex(s.data, i);
    if s.searchQuery != "" {
      FilterWithoutMatch(s.data, s.searchQuery, pos);
    }
  }
}
