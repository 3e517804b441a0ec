/**
 * The `UserData` component as an object: its five state cells are fields, and
 * each event handler is a method that assigns them.  Each method is proved to
 * take the state to the transition of the same name in `Transitions`.
 */
module Component {
  import opened Records
  import opened Views
  import opened Transitions

  class UserDataComponent {
    var data: seq<UserData>
    var formData: UserData
    var editIndex: Option<int>
    var currentPage: int
    var searchQuery: string

    /** The state a render sees. */
    function Snapshot(): State
      reads this
    {
      State(data, formData, editIndex, currentPage, searchQuery)
    }

    constructor ()
      ensures Snapshot() == Initial
    {
      data := [];
      formData := EmptyRecord;
      editIndex := None;
      currentPage := 1;
      searchQuery := "";
    }

    method HandleChange(name: Field, value: string)
      requires CursorValid(Snapshot())
      modifies this
      ensures Snapshot() == Changed(old(Snapshot()), name, value)
    {
      if editIndex.Some? {
        var updatedData := data;
        updatedData := updatedData[editIndex.value := WithField(updatedData[editIndex.value], name, value)];
        data := updatedData;
      } else {
        formData := WithField(formData, name, value);
      }
    }

    method HandleSubmit()
      modifies this
      ensures Snapshot() == Submitted(old(Snapshot()))
    {
      if editIndex.Some? {
        editIndex := None;
      } else {
        var newData := data + [formData];
        data := newData;
        formData := EmptyRecord;
        currentPage := PageCount(|newData|);
      }
    }

    method HandleEdit(index: int)
      modifies this
      ensures Snapshot() == Edited(old(Snapshot()), index)
    {
      editIndex := Some(index);
    }

    method HandleDelete(index: int)
      modifies this
      ensures Snapshot() == Deleted(old(Snapshot()), index)
    {
      var newData := WithoutIndex(data, index);
      var firstRow := IndexOfFirstRow(currentPage);
      data := newData;
      if |newData| == 0 {
        searchQuery := "";
      }
      if currentPage > 1 && |newData| < firstRow {
        currentPage := currentPage - 1;
      }
    }

    method HandlePageChange(pageNumber: int)
      modifies this
      ensures Snapshot() == PageChanged(old(Snapshot()), pageNumber)
    {
      currentPage := pageNumber;
    }

    method HandleSearchChange(value: string)
      modifies this
      ensures Snapshot() == SearchChanged(old(Snapshot()), value)
    {
      searchQuery := value;
    }

    method HandleSearch()
      modifies this
      ensures Snapshot() == Searched(old(Snapshot()))
    {
      currentPage := 1;
    }
  }
}
