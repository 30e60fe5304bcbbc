/** The row shape shown by the table (`DataRow`) and the record mapper
    `toDataTable`, which turns the users returned by the API into rows. */
module Rows {
  import opened Wrappers

  /** One displayed user record. Every field is text; `birthDate` is shown verbatim. */
  datatype Row = Row(
    id: string,
    firstName: string,
    lastName: string,
    email: string,
    birthDate: string,
    phone: string,
    company: string)

  /** The keys of a row (`keyof DataRow`), used as column ids and sort fields. */
  datatype Column = Id | FirstName | LastName | Email | BirthDate | Phone | Company

  /** `row[column]`. */
  function Field(r: Row, c: Column): string {
    match c
    case Id => r.id
    case FirstName => r.firstName
    case LastName => r.lastName
    case Email => r.email
    case BirthDate => r.birthDate
    case Phone => r.phone
    case Company => r.company
  }

  /** The nested `company` object of an API user. */
  datatype RawCompany = RawCompany(name: string)

  /** A user object as the API returns it. `company` is `None` when the object
      has no `company` member (or it is `null`), in which case reading
      `user.company.name` throws. */
  datatype RawUser = RawUser(
    id: string,
    firstname: string,
    lastname: string,
    email: string,
    birthDate: string,
    phone: string,
    company: Option<RawCompany>)

  /** `toDataTable`: maps every user to a row, in order. `None` stands for the
      TypeError thrown by `user.company.name` when some user has no company. */
  function ToDataTable(users: seq<RawUser>): (r: Option<seq<Row>>)
    ensures r.Some? <==> forall i :: 0 <= i < |users| ==> users[i].company.Some?
    ensures r.Some? ==> |r.value| == |users|
    ensures r.Some? ==> forall i :: 0 <= i < |users| ==>
      && r.value[i].id == users[i].id
      && r.value[i].firstName == users[i].firstname
      && r.value[i].lastName == users[i].lastname
      && r.value[i].email == users[i].email
      && r.value[i].birthDate == users[i].birthDate
      && r.value[i].phone == users[i].phone
      && r.value[i].company == users[i].company.value.name
  {
    if users == [] then Some([])
    else
      var u := users[0];
      match u.company
      case None => None
      case Some(c) =>
        match ToDataTable(users[1..])
        case None => None
        case Some(rest) =>
          Some([Row(u.id, u.firstname, u.lastname, u.email, u.birthDate, u.phone, c.name)] + rest)
  }

  /** The API user a row came from: the inverse of the mapping on one record. */
  function ToRawUser(r: Row): RawUser {
    RawUser(r.id, r.firstName, r.lastName, r.email, r.birthDate, r.phone, Some(RawCompany(r.company)))
  }

  /** Mapping the API form of any rows gives back exactly those rows: the mapper
      loses and invents nothing. */
  lemma ToDataTableRoundTrip(rows: seq<Row>, users: seq<RawUser>)
    requires |users| == |rows|
    requires forall i :: 0 <= i < |rows| ==> users[i] == ToRawUser(rows[i])
    ensures ToDataTable(users) == Some(rows)
  {
    var r := ToDataTable(users);
    assert r.Some? && |r.value| == |rows|;
  }
}
