/**
 The user record that the dashboard's form edits and its table lists, and the
 five form fields by which an input event names the part of the record it sets.
 */
module Users {

  /** One row of the user table, and also the shape of the form buffer.
      `gender` stays a plain string: the form starts with it empty, before the
      operator picks one of the options. */
  datatype User = User(
    firstName: string,
    lastName: string,
    email: string,
    gender: string,
    phoneNumber: string)

  /** The `id` of the input control that raised a change event. */
  datatype Field = FirstName | LastName | Email | Gender | PhoneNumber

  /** The form as it is at mount time and after every reset: all fields empty. */
  const Blank: User := User("", "", "", "", "")

  /** The value of one field. */
  function Get(u: User, f: Field): string
  {
    match f
    case FirstName => u.firstName
    case LastName => u.lastName
    case Email => u.email
    case Gender => u.gender
    case PhoneNumber => u.phoneNumber
  }

  /** The record `u` with field `f` replaced by `v`: the object spread
      `{ ...prevState, [id]: value }`. */
  function With(u: User, f: Field, v: string): (r: User)
    ensures Get(r, f) == v
    ensures forall g :: g != f ==> Get(r, g) == Get(u, g)
  {
    match f
    case FirstName => u.(firstName := v)
    case LastName => u.(lastName := v)
    case Email => u.(email := v)
    case Gender => u.(gender := v)
    case PhoneNumber => u.(phoneNumber := v)
  }

  /** Every field is the empty string. */
  predicate IsBlank(u: User)
  {
    forall f :: Get(u, f) == ""
  }

  /** Two records agree on every field exactly when they are the same record:
      a record has no identity beyond its five fields. */
  lemma FieldsDetermineUser(u: User, w: User)
    ensures (forall f :: Get(u, f) == Get(w, f)) <==> u == w
  {
    if forall f :: Get(u, f) == Get(w, f) {
      assert Get(u, FirstName) == Get(w, FirstName);
      assert Get(u, LastName) == Get(w, LastName);
      assert Get(u, Email) == Get(w, Email);
      assert Get(u, Gender) == Get(w, Gender);
      assert Get(u, PhoneNumber) == Get(w, PhoneNumber);
    }
  }

  /** `Blank` is the one record with all fields empty. */
  lemma BlankIsUnique(u: User)
    ensures IsBlank(u) <==> u == Blank
  {
    if IsBlank(u) {
      FieldsDetermineUser(u, Blank);
    }
  }

  /** Writing back the value a field already has leaves the record as it is. */
  lemma WithOwnValue(u: User, f: Field)
    ensures With(u, f, Get(u, f)) == u
  {
  }

  /** A second write to the same field overrides the first. */
  lemma WithTwice(u: User, f: Field, v: string, w: string)
    ensures With(With(u, f, v), f, w) == With(u, f, w)
  {
  }

  /** Writes to two different fields commute. */
  lemma WithCommutes(u: User, f: Field, g: Field, v: string, w: string)
    requires f != g
    ensures With(With(u, f, v), g, w) == With(With(u, g, w), f, v)
  {
  }
}
