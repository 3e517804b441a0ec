/** Concrete runs of the component: the add, search, delete and edit scenarios it is meant to support. */
module Scenarios {
  import opened Records
  import opened Views
  import opened Transitions

  /** The four change events of filling the form with `u`. */
  function Typed(s: State, u: UserData): (r: State)
    requires s.editIndex.None?
    ensures r.formData == u
    ensures r.data == s.data && r.editIndex == None
    ensures r.currentPage == s.currentPage && r.searchQuery == s.searchQuery
  {
    var s1 := Changed(s, FName, u.fname);
    var s2 := Changed(s1, LName, u.lname);
    var s3 := Changed(s2, Email, u.email);
    Changed(s3, Number, u.number)
  }

  /** Filling the form and pressing ADD, from add mode. */
  function Add(s: State, u: UserData): (r: State)
    requires s.editIndex.None?
    ensures r.data == s.data + [u] && r.editIndex == None && r.formData == EmptyRecord
    ensures r.currentPage == PageCount(|s.data| + 1) && r.searchQuery == s.searchQuery
  {
    var r := Submitted(Typed(s, u));
    assert r.data == r.data[..|s.data|] + [r.data[|s.data|]];
    r
  }

  /** Six adds of the same record land on page 2; page 1 shows rows 1-5 and page 2 row 6. */
  lemma SixAdds(u: UserData)
    ensures var s := Add(Add(Add(Add(Add(Add(Initial, u), u), u), u), u), u);
      s.data == [u, u, u, u, u, u] && s.currentPage == 2 &&
      CurrentData(s.data, s.searchQuery, 1) == s.data[..5] &&
      CurrentData(s.data, s.searchQuery, 2) == [s.data[5]]
  {
  }

  /** Searching "ann" in [Ann, anna, Bob] keeps the first two, in order. */
  lemma AnnSearch()
    ensures
      var ann, anna, bob := UserData("Ann", "", "", ""), UserData("anna", "", "", ""), UserData("Bob", "", "", "");
      FilterByName([ann, anna, bob], "ann") == [ann, anna]
  {
    var ann, anna, bob := UserData("Ann", "", "", ""), UserData("anna", "", "", ""), UserData("Bob", "", "", "");
    assert Lower("ann") == "ann";
    assert Lower("Ann") == "ann";
    assert Lower("anna") == "anna";
    assert Lower("Bob") == "bob";
    assert Lower("") == "";
    assert Includes("ann", "ann");
    assert "anna"[..3] == "ann";
    assert Includes("anna", "ann");
    assert "bob"[..3] != "ann" by { assert "bob"[0] != "ann"[0]; }
    assert !Includes("bob"[1..], "ann");
    assert !Includes("bob", "ann");
    assert !Includes("", "ann");
    assert [ann, anna, bob][1..] == [anna, bob];
    assert [anna, bob][1..] == [bob];
    assert [bob][1..] == [];
    assert Matches(ann, "ann") && Matches(anna, "ann") && !Matches(bob, "ann");
    assert FilterByName([bob], "ann") == [];
    assert FilterByName([anna, bob], "ann") == [anna];
  }

  /** Deleting the only record leaves an empty list and clears the query. */
  lemma DeleteOnlyRecord(u: UserData, query: string, page: int)
    ensures var r := Deleted(State([u], EmptyRecord, None, page, query), 0);
      r.data == [] && r.searchQuery == ""
  {
  }

  /** With row 2 under edit, a change writes through to the row; saving only closes the edit. */
  lemma EditRowTwo(s: State, value: string)
    requires |s.data| >= 3 && s.editIndex == Some(2)
    ensures var r := Changed(s, LName, value);
      r.data[2].lname == value && r.formData == s.formData && |r.data| == |s.data|
    ensures var r := Submitted(Changed(s, LName, value));
      r.editIndex == None && |r.data| == |s.data| && r.data[2].lname == value
  {
  }
}
