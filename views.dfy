/**
 * The views the component derives from its state on every render: the name
 * filter, the row window of the current page, and the list of page numbers.
 */
module Views {
  import opened Records

  /** `rowsPerPage`. */
  const RowsPerPage: nat := 5

  function Min(a: int, b: int): int { if a <= b then a else b }
  function Max(a: int, b: int): int { if a <= b then b else a }

  /** `Math.ceil(n / rowsPerPage)`: the number of pages that `n` rows fill. */
  function PageCount(n: nat): (p: nat)
    ensures n <= p * RowsPerPage
    ensures n > 0 ==> (p - 1) * RowsPerPage < n
    ensures p == 0 <==> n == 0
  {
    (n + RowsPerPage - 1) / RowsPerPage
  }

  /** `indexOfLastRow`: the end (exclusive) of the window of `page`. */
  function IndexOfLastRow(page: int): int { page * RowsPerPage }

  /**
   * `indexOfFirstRow`: the start of the window of `page`.  The ensures is the
   * body rewritten as `(page - 1) * RowsPerPage`, a form the prover uses; the
   * properties of the windows are stated in `RowWindowsTile`.
   */
  function IndexOfFirstRow(page: int): (first: int)
    ensures first == (page - 1) * RowsPerPage
  {
    IndexOfLastRow(page) - RowsPerPage
  }

  /**
   * `indexOfFirstRow + index`: the position the Edit and Delete buttons of a
   * table row pass to their handlers.
   */
  function RowIndex(page: int, offset: int): (i: int)
    ensures page >= 1 && offset >= 0 ==> i >= 0
  {
    IndexOfFirstRow(page) + offset
  }

  /**
   * The page windows tile the rows: row `i` lies in the window of page
   * `i / RowsPerPage + 1`, each window starts where the previous one ends, and
   * the page of every row of an `n`-row list is one of its `PageCount(n)` pages.
   */
  lemma RowWindowsTile(i: int, n: nat, page: int)
    ensures 0 <= i ==> IndexOfFirstRow(i / RowsPerPage + 1) <= i < IndexOfLastRow(i / RowsPerPage + 1)
    ensures IndexOfLastRow(page) == IndexOfFirstRow(page + 1)
    ensures 0 <= i < n ==> 1 <= i / RowsPerPage + 1 <= PageCount(n)
  {
  }

  /** The search predicate: the query, lower-cased, occurs in the lower-cased first or last name. */
  predicate Matches(u: UserData, query: string)
  {
    Includes(Lower(u.fname), Lower(query)) || Includes(Lower(u.lname), Lower(query))
  }

  /** `filteredData`: the records the name search keeps, in their original order. */
  function FilterByName(data: seq<UserData>, query: string): (r: seq<UserData>)
    ensures |r| <= |data|
    ensures forall u {:trigger u in r} :: u in r <==> u in data && Matches(u, query)
    decreases |data|
  {
    if data == [] then []
    else
      var rest := FilterByName(data[1..], query);
      assert data == [data[0]] + data[1..];
      if Matches(data[0], query) then [data[0]] + rest else rest
  }

  /** `a` is `b` with some elements dropped, the rest kept in order. */
  ghost predicate IsSubsequence<T>(a: seq<T>, b: seq<T>)
    decreases |b|
  {
    |a| <= |b| &&
    (a == [] || (a[0] == b[0] && IsSubsequence(a[1..], b[1..])) || IsSubsequence(a, b[1..]))
  }

  /** The filter keeps an order-preserving subsequence of the records. */
  lemma {:induction false} FilterIsSubsequence(data: seq<UserData>, query: string)
    ensures IsSubsequence(FilterByName(data, query), data)
    decreases |data|
  {
    if data != [] {
      var rest := FilterByName(data[1..], query);
      FilterIsSubsequence(data[1..], query);
      if Matches(data[0], query) {
        var r := FilterByName(data, query);
        assert r[0] == data[0] && r[1..] == rest;
      }
    }
  }

  /**
   * The filter keeps every copy of a matching record and no copy of any other:
   * with `FilterIsSubsequence` this fixes the result, duplicates included.
   */
  lemma {:induction false} FilterKeepsEveryMatchingCopy(data: seq<UserData>, query: string)
    ensures forall u ::
      multiset(FilterByName(data, query))[u] == (if Matches(u, query) then multiset(data)[u] else 0)
    decreases |data|
  {
    if data != [] {
      FilterKeepsEveryMatchingCopy(data[1..], query);
      assert data == [data[0]] + data[1..];
    }
  }

  /** The filter works record by record: filtering a concatenation filters each part. */
  lemma {:induction false} FilterAppend(a: seq<UserData>, b: seq<UserData>, query: string)
    ensures FilterByName(a + b, query) == FilterByName(a, query) + FilterByName(b, query)
    decreases |a|
  {
    if a != [] {
      var ab := a + b;
      assert ab[0] == a[0] && ab[1..] == a[1..] + b;
      FilterAppend(a[1..], b, query);
      var head := if Matches(a[0], query) then [a[0]] else [];
      assert FilterByName(ab, query) == head + FilterByName(ab[1..], query);
      assert FilterByName(a, query) == head + FilterByName(a[1..], query);
    } else {
      assert a + b == b;
    }
  }

  /** An empty query keeps every record. */
  lemma {:induction false} EmptyQueryKeepsAll(data: seq<UserData>)
    ensures FilterByName(data, "") == data
    decreases |data|
  {
    if data != [] {
      IncludesEmpty(Lower(data[0].fname));
      assert Lower("") == "";
      EmptyQueryKeepsAll(data[1..]);
      assert data == [data[0]] + data[1..];
    }
  }

  /** The search never looks at the email or the number of a record. */
  lemma MatchIgnoresContactFields(u: UserData, query: string, email: string, number: string)
    ensures Matches(u.(email := email, number := number), query) == Matches(u, query)
  {
  }

  /** The search is case-insensitive in the query. */
  lemma MatchIsCaseInsensitive(u: UserData, query: string)
    ensures Matches(u, Lower(query)) == Matches(u, query)
  {
    LowerIdempotent(query);
  }

  /**
   * `s.slice(start, end)` as JavaScript defines it: a negative bound counts from
   * the end, both bounds are clamped to `[0, |s|]`, and crossed bounds give `[]`.
   */
  function Slice<T>(s: seq<T>, start: int, end: int): (r: seq<T>)
    ensures start < 0 || 0 <= end ==> |r| <= Max(end - start, 0)
    ensures 0 <= start ==> forall k :: 0 <= k < |r| ==> start + k < |s| && r[k] == s[start + k]
    ensures 0 <= start <= end ==> |r| == Max(Min(end, |s|) - start, 0)
  {
    var from := if start < 0 then Max(|s| + start, 0) else Min(start, |s|);
    var to := if end < 0 then Max(|s| + end, 0) else Min(end, |s|);
    if from < to then s[from..to] else []
  }

  /** The list the table pages through: the filtered records while a query is entered, else all. */
  function Visible(data: seq<UserData>, query: string): seq<UserData>
  {
    if query != "" then FilterByName(data, query) else data
  }

  /** `totalItems`. */
  function TotalItems(data: seq<UserData>, query: string): nat
  {
    |Visible(data, query)|
  }

  /** `currentData`: the rows of page `page` of the visible list. */
  function CurrentData(data: seq<UserData>, query: string, page: int): (r: seq<UserData>)
    ensures |r| <= RowsPerPage
    ensures page >= 1 ==> forall k :: 0 <= k < |r| ==>
      IndexOfFirstRow(page) + k < |Visible(data, query)| &&
      r[k] == Visible(data, query)[IndexOfFirstRow(page) + k]
    ensures page >= 1 ==>
      |r| == Max(Min(RowsPerPage, TotalItems(data, query) - IndexOfFirstRow(page)), 0)
    ensures 1 <= page <= PageCount(TotalItems(data, query)) ==> r != []
  {
    assert page >= 1 ==> IndexOfFirstRow(page) >= 0;
    Slice(Visible(data, query), IndexOfFirstRow(page), IndexOfLastRow(page))
  }

  /** `pageNumbers`: the labels of the page buttons, built by counting up from 1. */
  method PageNumbers(totalItems: nat) returns (pages: seq<int>)
    ensures |pages| == PageCount(totalItems)
    ensures forall k :: 0 <= k < |pages| ==> pages[k] == k + 1
    ensures forall j, k :: 0 <= j < k < |pages| ==> pages[j] < pages[k]
  {
    pages := [];
    var i := 1;
    while i <= PageCount(totalItems)
      invariant 1 <= i <= PageCount(totalItems) + 1
      invariant |pages| == i - 1
      invariant forall k :: 0 <= k < |pages| ==> pages[k] == k + 1
    {
      pages := pages + [i];
      i := i + 1;
    }
  }
}
