/**
 The Dashboard component as an object: its three state cells are fields, and
 each event handler is a method that updates them. Each method states its new
 state field by field and also as the matching transition of module
 Transitions applied to the old state, so the lemmas proved there hold of the
 object too.
 */
module DashboardComponent {
  import opened Users
  import opened Transitions

  class Dashboard {
    var records: seq<User>  // `userDetails`
    var form: User          // `formState`
    var sel: int            // `selectedIndex`, -1 when no row is being edited

    /** The object's state as a value. */
    function Snapshot(): State
      reads this
    {
      State(records, form, sel)
    }

    /** Mounting the component: no rows, an empty form, nothing selected. */
    constructor ()
      ensures records == [] && IsBlank(form) && sel == -1
      ensures Snapshot() == Initial()
    {
      records := [];
      form := Blank;
      sel := -1;
    }

    /** `handleInputChange`: field `f` of the form becomes `v`. */
    method HandleInputChange(f: Field, v: string)
      modifies this
      ensures Get(form, f) == v
      ensures forall g :: g != f ==> Get(form, g) == Get(old(form), g)
      ensures records == old(records) && sel == old(sel)
      ensures Snapshot() == InputChange(old(Snapshot()), f, v)
    {
      form := With(form, f, v);
    }

    /** `handleSubmit` (Save): the form becomes a new last row and is cleared;
        the selection stays what it was, even while a row is being edited. */
    method HandleSubmit()
      modifies this
      ensures records == old(records) + [old(form)]
      ensures IsBlank(form) && sel == old(sel)
      ensures Snapshot() == Submit(old(Snapshot()))
    {
      var newUser := User(form.firstName, form.lastName, form.email, form.gender, form.phoneNumber);
      records := records + [newUser];
      form := Blank;
    }

    /** `handleDelete(index)`: the row is spliced out. Only when it is the
        selected row are the form and the selection reset; otherwise the
        selection keeps its index. */
    method HandleDelete(index: int)
      requires 0 <= index < |records|
      modifies this
      ensures records == old(records)[..index] + old(records)[index + 1..]
      ensures index == old(sel) ==> IsBlank(form) && sel == -1
      ensures index != old(sel) ==> form == old(form) && sel == old(sel)
      ensures Snapshot() == Delete(old(Snapshot()), index)
    {
      var updatedUsers := records;
      updatedUsers := updatedUsers[..index] + updatedUsers[index + 1..];
      records := updatedUsers;
      if index == sel {
        form := Blank;
        sel := -1;
      }
    }

    /** `handleRowClick(index)`: the row is loaded into the form and selected. */
    method HandleRowClick(index: int)
      requires 0 <= index < |records|
      modifies this
      ensures form == old(records)[index] && sel == index
      ensures records == old(records)
      ensures Snapshot() == RowClick(old(Snapshot()), index)
    {
      var selectedUser := records[index];
      form := User(selectedUser.firstName, selectedUser.lastName, selectedUser.email,
                   selectedUser.gender, selectedUser.phoneNumber);
      sel := index;
    }

    /** `handleUpdateRow` (Update): with a selection, the form is stored at the
        selected index (replacing that row, or appending when a stale selection
        equals the row count) and the form and selection are reset; with none,
        nothing changes. */
    method HandleUpdateRow()
      requires UpdateDefined(Snapshot())
      modifies this
      ensures old(sel) == -1 ==> records == old(records) && form == old(form) && sel == -1
      ensures 0 <= old(sel) < |old(records)| ==> records == old(records)[old(sel) := old(form)]
      ensures old(sel) == |old(records)| ==> records == old(records) + [old(form)]
      ensures old(sel) != -1 ==> IsBlank(form) && sel == -1
      ensures Snapshot() == UpdateRow(old(Snapshot()))
    {
      if sel != -1 {
        var updatedUsers := records;
        updatedUsers := StoreAt(updatedUsers, sel, User(form.firstName, form.lastName, form.email,
                                                        form.gender, form.phoneNumber));
        records := updatedUsers;
        form := Blank;
        sel := -1;
      }
    }

    /** `handleClearForm` (Clear): the form is emptied and the selection
        dropped; the rows are untouched. */
    method HandleClearForm()
      modifies this
      ensures IsBlank(form) && sel == -1 && records == old(records)
      ensures Snapshot() == ClearForm(old(Snapshot()))
    {
      form := Blank;
      sel := -1;
    }
  }

  /** The walk-through on a mounted component: save Alice Smith, select her,
      change her last name to Jones, press Update, then delete her. Only the
      handlers' contracts are used. */
  method EditWalkThrough() returns (afterUpdate: seq<User>, selAfterUpdate: int, afterDelete: seq<User>)
    ensures afterUpdate == [User("Alice", "Jones", "a@x.com", "female", "555-1111")]
    ensures selAfterUpdate == -1
    ensures afterDelete == []
  {
    var d := new Dashboard();
    d.HandleInputChange(FirstName, "Alice");
    d.HandleInputChange(LastName, "Smith");
    d.HandleInputChange(Email, "a@x.com");
    d.HandleInputChange(Gender, "female");
    d.HandleInputChange(PhoneNumber, "555-1111");
    FieldsDetermineUser(d.form, User("Alice", "Smith", "a@x.com", "female", "555-1111"));
    d.HandleSubmit();
    d.HandleRowClick(0);
    d.HandleInputChange(LastName, "Jones");
    FieldsDetermineUser(d.form, User("Alice", "Jones", "a@x.com", "female", "555-1111"));
    d.HandleUpdateRow();
    afterUpdate, selAfterUpdate := d.records, d.sel;
    d.HandleDelete(0);
    afterDelete := d.records;
  }

  /** Pressing Save instead of Update while row 0 of a two-row table is
      selected: the table grows to three rows, row 0 is unchanged, and row 0
      stays selected. */
  method SaveWhileEditingWalkThrough(a: User, b: User) returns (rows: seq<User>, selection: int)
    ensures rows == [a, b, a]
    ensures selection == 0
  {
    var d := new Dashboard();
    d.HandleInputChange(FirstName, a.firstName);
    d.HandleInputChange(LastName, a.lastName);
    d.HandleInputChange(Email, a.email);
    d.HandleInputChange(Gender, a.gender);
    d.HandleInputChange(PhoneNumber, a.phoneNumber);
    FieldsDetermineUser(d.form, a);
    d.HandleSubmit();
    assert d.records == [a];
    d.HandleInputChange(FirstName, b.firstName);
    d.HandleInputChange(LastName, b.lastName);
    d.HandleInputChange(Email, b.email);
    d.HandleInputChange(Gender, b.gender);
    d.HandleInputChange(PhoneNumber, b.phoneNumber);
    FieldsDetermineUser(d.form, b);
    d.HandleSubmit();
    assert d.records == [a, b];
    d.HandleRowClick(0);
    assert d.form == a && d.sel == 0;
    d.HandleSubmit();
    rows, selection := d.records, d.sel;
  }
}
