/**
 The dashboard's state machine as values: the three state cells of the
 component, one pure transition per event handler, and runs of events from the
 state at mount time. The class in module DashboardComponent is proved against
 these functions; the lemmas here are what those functions promise.
 */
module Transitions {
  import opened Users

  datatype Option<T> = None | Some(value: T)

  /** The component's three state cells: the table rows (`userDetails`), the
      form buffer (`formState`) and the row being edited (`selectedIndex`,
      where -1 means none). */
  datatype State = State(records: seq<User>, form: User, sel: int)

  /** The state at mount: no rows, an empty form, nothing selected. */
  function Initial(): (r: State)
    ensures r.records == [] && IsBlank(r.form) && r.sel == -1
  {
    State([], Blank, -1)
  }

  /** The selection is "none" or names an existing row. Every handler but
      `Delete` keeps this (see `DeleteKeepsSelectionInRange`), and
      `StaleSelectionReachable` shows that it is not an invariant. */
  predicate SelectionInRange(st: State)
  {
    st.sel == -1 || 0 <= st.sel < |st.records|
  }

  /** Update is defined: nothing is selected, or the selection names a row or
      the position just past the last row, where the source's element
      assignment appends. A selection further out would leave holes in the
      array and is not modelled. */
  predicate UpdateDefined(st: State)
  {
    st.sel == -1 || 0 <= st.sel <= |st.records|
  }

  /** JavaScript element assignment `s[i] = x` on an array without holes: it
      replaces element `i`, or appends when `i` is the length. */
  function StoreAt<T>(s: seq<T>, i: int, x: T): (r: seq<T>)
    requires 0 <= i <= |s|
    ensures |r| == if i < |s| then |s| else |s| + 1
    ensures r[i] == x
    ensures forall j :: 0 <= j < |s| && j != i ==> r[j] == s[j]
  {
    if i < |s| then s[i := x] else s + [x]
  }

  /** `handleInputChange`: one form field takes the typed value. */
  function InputChange(st: State, f: Field, v: string): (r: State)
    ensures Get(r.form, f) == v
    ensures forall g :: g != f ==> Get(r.form, g) == Get(st.form, g)
    ensures r.records == st.records && r.sel == st.sel
  {
    st.(form := With(st.form, f, v))
  }

  /** `handleSubmit` (Save): the form is appended as a new row and the form is
      cleared. The selection is not consulted and not reset. */
  function Submit(st: State): (r: State)
    ensures |r.records| == |st.records| + 1
    ensures r.records[..|st.records|] == st.records
    ensures r.records[|st.records|] == st.form
    ensures IsBlank(r.form) && r.sel == st.sel
  {
    var newUser := User(st.form.firstName, st.form.lastName, st.form.email,
                        st.form.gender, st.form.phoneNumber);
    State(st.records + [newUser], Blank, st.sel)
  }

  /** `handleDelete(index)`: row `i` is spliced out; the form and selection are
      reset only when `i` is the selected row. */
  function Delete(st: State, i: int): (r: State)
    requires 0 <= i < |st.records|
    ensures |r.records| == |st.records| - 1
    ensures forall j :: 0 <= j < i ==> r.records[j] == st.records[j]
    ensures forall j :: i <= j < |r.records| ==> r.records[j] == st.records[j + 1]
    ensures i == st.sel ==> IsBlank(r.form) && r.sel == -1
    ensures i != st.sel ==> r.form == st.form && r.sel == st.sel
  {
    var updated := st.records[..i] + st.records[i + 1..];
    if i == st.sel then State(updated, Blank, -1)
    else st.(records := updated)
  }

  /** `handleRowClick(index)`: row `i` is copied into the form and selected. */
  function RowClick(st: State, i: int): (r: State)
    requires 0 <= i < |st.records|
    ensures r.form == st.records[i] && r.sel == i && r.records == st.records
  {
    var u := st.records[i];
    State(st.records, User(u.firstName, u.lastName, u.email, u.gender, u.phoneNumber), i)
  }

  /** `handleUpdateRow` (Update): with a selection, the form is stored at the
      selected index, then the form and selection are reset; with none,
      nothing happens. A selection that names a row replaces it; a stale
      selection equal to the row count appends the form. */
  function UpdateRow(st: State): (r: State)
    requires UpdateDefined(st)
    ensures st.sel == -1 ==> r == st
    ensures 0 <= st.sel < |st.records| ==>
      && |r.records| == |st.records|
      && r.records[st.sel] == st.form
      && (forall j :: 0 <= j < |st.records| && j != st.sel ==> r.records[j] == st.records[j])
    ensures st.sel == |st.records| ==> r.records == st.records + [st.form]
    ensures st.sel != -1 ==> IsBlank(r.form) && r.sel == -1
  {
    if st.sel != -1 then
      var f := st.form;
      State(StoreAt(st.records, st.sel, User(f.firstName, f.lastName, f.email, f.gender, f.phoneNumber)),
            Blank, -1)
    else st
  }

  /** `handleClearForm` (Clear): the form is emptied and the selection dropped. */
  function ClearForm(st: State): (r: State)
    ensures IsBlank(r.form) && r.sel == -1 && r.records == st.records
  {
    State(st.records, Blank, -1)
  }

  /** One user interaction, as the rendered controls raise it. */
  datatype Event =
    | Change(field: Field, value: string)  // typing in an input or picking a gender
    | Save                                 // the Save (submit) button
    | DeleteRow(row: int)                  // a row's Delete button
    | ClickRow(row: int)                   // a click on a row
    | Update                               // the Update button
    | Clear                                // the Clear button

  /** The event may be handled in `st`: a row index comes from a rendered row,
      and Update needs a selection for which it is defined. */
  predicate Enabled(st: State, e: Event)
  {
    match e
    case DeleteRow(i) => 0 <= i < |st.records|
    case ClickRow(i) => 0 <= i < |st.records|
    case Update => UpdateDefined(st)
    case _ => true
  }

  /** The handler an event dispatches to. */
  function Apply(st: State, e: Event): State
    requires Enabled(st, e)
  {
    match e
    case Change(f, v) => InputChange(st, f, v)
    case Save => Submit(st)
    case DeleteRow(i) => Delete(st, i)
    case ClickRow(i) => RowClick(st, i)
    case Update => UpdateRow(st)
    case Clear => ClearForm(st)
  }

  /** The state after handling `es` in order, or None if some event is not
      enabled when it arrives. */
  function Run(st: State, es: seq<Event>): Option<State>
    decreases |es|
  {
    if es == [] then Some(st)
    else if !Enabled(st, es[0]) then None
    else Run(Apply(st, es[0]), es[1..])
  }

  /** Typing each field of `u` into the form, in screen order. */
  function Fill(u: User): seq<Event>
  {
    [Change(FirstName, u.firstName), Change(LastName, u.lastName), Change(Email, u.email),
     Change(Gender, u.gender), Change(PhoneNumber, u.phoneNumber)]
  }

  /** Filling in and saving each user of `us` in turn. */
  function Enter(us: seq<User>): seq<Event>
    decreases |us|
  {
    if us == [] then [] else Fill(us[0]) + [Save] + Enter(us[1..])
  }

  // ---------------------------------------------------------------------------
  // Runs

  /** Running `a ++ b` is running `a`, then `b` from where `a` ended. */
  lemma {:induction false} RunAppend(st: State, a: seq<Event>, b: seq<Event>)
    ensures Run(st, a + b) == match Run(st, a)
                              case None => None
                              case Some(s) => Run(s, b)
    decreases |a|
  {
    if a == [] {
      assert a + b == b;
    } else {
      assert (a + b)[0] == a[0];
      assert (a + b)[1..] == a[1..] + b;
      if Enabled(st, a[0]) {
        RunAppend(Apply(st, a[0]), a[1..], b);
      }
    }
  }

  /** Running a single event is applying its handler. */
  lemma RunOne(st: State, e: Event)
    ensures Run(st, [e]) == if Enabled(st, e) then Some(Apply(st, e)) else None
  {
  }

  /** Filling in the five fields of `u` makes the form exactly `u`, whatever
      it held before, and touches nothing else. */
  lemma FillSetsForm(st: State, u: User)
    ensures Run(st, Fill(u)) == Some(st.(form := u))
  {
    var s0 := st;
    var s1 := InputChange(s0, FirstName, u.firstName);
    var s2 := InputChange(s1, LastName, u.lastName);
    var s3 := InputChange(s2, Email, u.email);
    var s4 := InputChange(s3, Gender, u.gender);
    var s5 := InputChange(s4, PhoneNumber, u.phoneNumber);
    var es := Fill(u);
    assert es[1..][1..][1..][1..][1..] == [];
    assert Run(s5, es[1..][1..][1..][1..][1..]) == Some(s5);
    assert Run(s4, es[1..][1..][1..][1..]) == Some(s5);
    assert Run(s3, es[1..][1..][1..]) == Some(s5);
    assert Run(s2, es[1..][1..]) == Some(s5);
    assert Run(s1, es[1..]) == Some(s5);
    assert Run(s0, es) == Some(s5);
    FieldsDetermineUser(s5.form, u);
  }

  /** Entering and saving users one after another appends them, in order,
      after the existing rows; the selection is never touched. */
  lemma {:induction false} EnterAppends(st: State, us: seq<User>)
    ensures Run(st, Enter(us)) ==
            Some(State(st.records + us, if us == [] then st.form else Blank, st.sel))
    decreases |us|
  {
    if us == [] {
      assert st.records + us == st.records;
    } else {
      var filled := st.(form := us[0]);
      var saved := Submit(filled);
      RunAppend(st, Fill(us[0]) + [Save], Enter(us[1..]));
      RunAppend(st, Fill(us[0]), [Save]);
      FillSetsForm(st, us[0]);
      RunOne(filled, Save);
      EnterAppends(saved, us[1..]);
      assert saved.records + us[1..] == st.records + us;
    }
  }

  /** From the state at mount, every reachable selection is -1 or a
      non-negative index. */
  lemma {:induction false} SelectionNeverBelowMinusOne(st: State, es: seq<Event>)
    requires st.sel >= -1
    ensures Run(st, es).Some? ==> Run(st, es).value.sel >= -1
    decreases |es|
  {
    if es != [] && Enabled(st, es[0]) {
      SelectionNeverBelowMinusOne(Apply(st, es[0]), es[1..]);
    }
  }

  // ---------------------------------------------------------------------------
  // Selection

  /** Every handler except Delete keeps the selection in range. */
  lemma OthersKeepSelectionInRange(st: State, e: Event)
    requires SelectionInRange(st) && Enabled(st, e) && !e.DeleteRow?
    ensures SelectionInRange(Apply(st, e))
  {
  }

  /** Deleting row `i` leaves the selection in range exactly unless a row below
      the selection is deleted while the last row is selected. */
  lemma DeleteKeepsSelectionInRange(st: State, i: int)
    requires SelectionInRange(st) && 0 <= i < |st.records|
    ensures SelectionInRange(Delete(st, i)) <==> !(i < st.sel == |st.records| - 1)
  {
  }

  /** Deleting a row below the selected one keeps the index, which from then on
      names the row that used to follow the selected one. */
  lemma DeleteBelowShiftsSelection(st: State, i: int)
    requires 0 <= i < st.sel < |st.records| - 1
    ensures Delete(st, i).sel == st.sel
    ensures Delete(st, i).records[st.sel] == st.records[st.sel + 1]
  {
  }

  /** With users a and b entered, selecting b and deleting a leaves one row and
      the selection at index 1, past the last row. */
  lemma StaleSelectionReachable(a: User, b: User)
    ensures Run(Initial(), Enter([a, b]) + [ClickRow(1), DeleteRow(0)]) == Some(State([b], b, 1))
    ensures !SelectionInRange(State([b], b, 1))
  {
    var entered := State([a, b], Blank, -1);
    EnterAppends(Initial(), [a, b]);
    assert Initial().records + [a, b] == [a, b];
    RunAppend(Initial(), Enter([a, b]), [ClickRow(1), DeleteRow(0)]);
    var clicked := RowClick(entered, 1);
    assert [ClickRow(1), DeleteRow(0)][1..] == [DeleteRow(0)];
    RunOne(clicked, DeleteRow(0));
    assert Delete(clicked, 0).records == [b];
  }

  /** Continuing `StaleSelectionReachable`, pressing Update stores the form at
      index 1, which is the row count, so the table becomes [b, b]. */
  lemma StaleUpdateAppends(a: User, b: User)
    ensures Run(Initial(), Enter([a, b]) + [ClickRow(1), DeleteRow(0), Update]) ==
            Some(State([b, b], Blank, -1))
  {
    var prefix := Enter([a, b]) + [ClickRow(1), DeleteRow(0)];
    assert prefix + [Update] == Enter([a, b]) + [ClickRow(1), DeleteRow(0), Update];
    StaleSelectionReachable(a, b);
    RunAppend(Initial(), prefix, [Update]);
    assert Run(Initial(), prefix) == Some(State([b], b, 1));
    RunOne(State([b], b, 1), Update);
    assert UpdateRow(State([b], b, 1)) == State([b, b], Blank, -1);
    assert Run(State([b], b, 1), [Update]) == Some(State([b, b], Blank, -1));
    assert Run(Initial(), prefix + [Update]) == Some(State([b, b], Blank, -1));
  }

  /** With three rows, selecting the middle one, deleting the first and then
      pressing Update overwrites the row after the one that was selected. */
  lemma StaleUpdateOverwritesWrongRow(a: User, b: User, c: User)
    ensures Run(State([a, b, c], Blank, -1), [ClickRow(1), DeleteRow(0), Update]) ==
            Some(State([b, b], Blank, -1))
  {
    var s0 := State([a, b, c], Blank, -1);
    var s1 := RowClick(s0, 1);
    var s2 := Delete(s1, 0);
    assert s2 == State([b, c], b, 1);
    var s3 := UpdateRow(s2);
    assert s3 == State([b, b], Blank, -1);
    var es := [ClickRow(1), DeleteRow(0), Update];
    assert es[1..][1..][1..] == [];
    assert Run(s2, es[1..][1..]) == Some(s3);
    assert Run(s1, es[1..]) == Some(s3);
  }

  // ---------------------------------------------------------------------------
  // Editing

  /** Selecting a row and pressing Update without editing puts the rows back
      as they were, and ends with nothing selected. */
  lemma ClickThenUpdateKeepsRecords(st: State, i: int)
    requires 0 <= i < |st.records|
    ensures UpdateRow(RowClick(st, i)).records == st.records
    ensures UpdateRow(RowClick(st, i)).sel == -1
  {
  }

  /** Selecting row `i`, changing one field and pressing Update changes that
      field of row `i` and nothing else in the table. */
  lemma EditOneField(st: State, i: int, f: Field, v: string)
    requires 0 <= i < |st.records|
    ensures UpdateRow(InputChange(RowClick(st, i), f, v)).records ==
            st.records[i := With(st.records[i], f, v)]
  {
  }

  /** Pressing Save while a row is selected adds a copy of that row at the end,
      leaves the selected row itself unchanged and keeps it selected. */
  lemma SaveWhileEditing(st: State, i: int)
    requires 0 <= i < |st.records|
    ensures Submit(RowClick(st, i)).records[..|st.records|] == st.records
    ensures Submit(RowClick(st, i)).records[|st.records|] == st.records[i]
    ensures Submit(RowClick(st, i)).sel == i
  {
  }

  /** The walk-through: save Alice Smith, select her, change her last name to
      Jones, press Update, then delete her. */
  lemma EditScenario()
    ensures
      var alice := User("Alice", "Smith", "a@x.com", "female", "555-1111");
      var jones := User("Alice", "Jones", "a@x.com", "female", "555-1111");
      && Run(Initial(), Enter([alice])) == Some(State([alice], Blank, -1))
      && Run(State([alice], Blank, -1), [ClickRow(0), Change(LastName, "Jones"), Update]) ==
           Some(State([jones], Blank, -1))
      && Run(State([jones], Blank, -1), [DeleteRow(0)]) == Some(Initial())
  {
    var alice := User("Alice", "Smith", "a@x.com", "female", "555-1111");
    var jones := User("Alice", "Jones", "a@x.com", "female", "555-1111");
    EnterAppends(Initial(), [alice]);
    assert Initial().records + [alice] == [alice];
    var s0 := State([alice], Blank, -1);
    var s1 := RowClick(s0, 0);
    var s2 := InputChange(s1, LastName, "Jones");
    var s3 := UpdateRow(s2);
    EditOneField(s0, 0, LastName, "Jones");
    assert s3 == State([jones], Blank, -1);
    var es := [ClickRow(0), Change(LastName, "Jones"), Update];
    assert es[1..][1..][1..] == [];
    assert Run(s2, es[1..][1..]) == Some(s3);
    assert Run(s1, es[1..]) == Some(s3);
    RunOne(State([jones], Blank, -1), DeleteRow(0));
  }

  // ---------------------------------------------------------------------------
  // Clearing

  /** Clear twice is Clear once. */
  lemma ClearIdempotent(st: State)
    ensures ClearForm(ClearForm(st)) == ClearForm(st)
  {
  }

  /** Clear discards an unsaved edit and a selection: after a field change or a
      row click, Clear gives the same state as Clear alone. */
  lemma ClearDiscardsEdits(st: State, f: Field, v: string, i: int)
    requires 0 <= i < |st.records|
    ensures ClearForm(InputChange(st, f, v)) == ClearForm(st)
    ensures ClearForm(RowClick(st, i)) == ClearForm(st)
  {
  }
}
