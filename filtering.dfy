/** The filter stage of the derived-row pipeline: the per-row callback given to
    `data.filter`, which checks the truthy column patterns one after another
    and stops at the first one that does not match. */
module Filtering {
  import opened Wrappers
  import opened Rows

  /** The filter object the table reports: one optional pattern per row key.
      `id` and `birthDate` can be present but are never read. */
  datatype Filter = Filter(
    id: Option<string>,
    firstName: Option<string>,
    lastName: Option<string>,
    email: Option<string>,
    birthDate: Option<string>,
    phone: Option<string>,
    company: Option<string>)

  /** The empty object `{}`. */
  const NoPatterns := Filter(None, None, None, None, None, None, None)

  /** The JavaScript regular-expression engine, left abstract: `compiles(p)`
      says whether `new RegExp(p, "i")` succeeds, and `search(p, text)` whether
      `text.search(new RegExp(p, "i")) !== -1` (a case-insensitive, unanchored
      match). */
  datatype RegexEngine = RegexEngine(compiles: string -> bool, search: (string, string) -> bool)

  /** The SyntaxError `new RegExp` throws on a malformed pattern. */
  datatype FilterError = BadPattern(pattern: string)

  /** JavaScript truthiness of a pattern: present and not the empty string. */
  predicate Truthy(p: Option<string>) {
    p.Some? && p.value != ""
  }

  /** The `firstName` test: `filtered = filtered && match`. */
  function FirstNameStep(filtered: bool, p: Option<string>, text: string, e: RegexEngine): Result<bool, FilterError> {
    if filtered && Truthy(p) then
      if e.compiles(p.value) then Ok(filtered && e.search(p.value, text)) else Err(BadPattern(p.value))
    else Ok(filtered)
  }

  /** The tests of the other four columns: `filtered = (filtered && !p) || match`. */
  function GuardedStep(filtered: bool, p: Option<string>, text: string, e: RegexEngine): Result<bool, FilterError> {
    if filtered && Truthy(p) then
      if e.compiles(p.value) then Ok((filtered && !Truthy(p)) || e.search(p.value, text)) else Err(BadPattern(p.value))
    else Ok(filtered)
  }

  /** Inside the `if`, `filtered` holds and `p` is truthy, so the guarded form
      reduces to the match alone: the two styles of test agree on every input. */
  lemma GuardedStepIsFirstNameStep(filtered: bool, p: Option<string>, text: string, e: RegexEngine)
    ensures GuardedStep(filtered, p, text, e) == FirstNameStep(filtered, p, text, e)
  {
  }

  /** A column admits a row when its pattern is absent or empty, or compiles and
      matches the column's field. */
  predicate ColumnAdmits(p: Option<string>, text: string, e: RegexEngine) {
    Truthy(p) ==> e.compiles(p.value) && e.search(p.value, text)
  }

  /** The intended meaning of a filter: every filterable column admits the row. */
  predicate Admits(f: Filter, r: Row, e: RegexEngine) {
    && ColumnAdmits(f.firstName, r.firstName, e)
    && ColumnAdmits(f.lastName, r.lastName, e)
    && ColumnAdmits(f.email, r.email, e)
    && ColumnAdmits(f.company, r.company, e)
    && ColumnAdmits(f.phone, r.phone, e)
  }

  /** Every truthy pattern of the five filterable columns is a valid expression. */
  predicate PatternsCompile(f: Filter, e: RegexEngine) {
    && (Truthy(f.firstName) ==> e.compiles(f.firstName.value))
    && (Truthy(f.lastName) ==> e.compiles(f.lastName.value))
    && (Truthy(f.email) ==> e.compiles(f.email.value))
    && (Truthy(f.company) ==> e.compiles(f.company.value))
    && (Truthy(f.phone) ==> e.compiles(f.phone.value))
  }

  /** The callback given to `data.filter`: the columns are tested in the order
      firstName, lastName, email, company, phone, and a failed match skips the
      remaining tests (so a malformed later pattern is then never compiled). */
  function KeepRow(f: Filter, r: Row, e: RegexEngine): (res: Result<bool, FilterError>)
    ensures res == Ok(true) <==> Admits(f, r, e)
    ensures res.Ok? ==> (res.value <==> Admits(f, r, e))
    ensures PatternsCompile(f, e) ==> res.Ok?
    ensures res.Err? ==> !PatternsCompile(f, e)
  {
    var byFirstName :- FirstNameStep(true, f.firstName, r.firstName, e);
    var byLastName :- GuardedStep(byFirstName, f.lastName, r.lastName, e);
    var byEmail :- GuardedStep(byLastName, f.email, r.email, e);
    var byCompany :- GuardedStep(byEmail, f.company, r.company, e);
    var byPhone :- GuardedStep(byCompany, f.phone, r.phone, e);
    Ok(byPhone)
  }

  /** The admitted rows of `rows`, in their order: the reference for the filter stage. */
  function Select(f: Filter, rows: seq<Row>, e: RegexEngine): seq<Row> {
    if rows == [] then []
    else (if Admits(f, rows[0], e) then [rows[0]] else []) + Select(f, rows[1..], e)
  }

  /** `data.filter(callback)`: the callback runs on the rows in order and the
      first exception it throws escapes. */
  function FilterRows(f: Filter, rows: seq<Row>, e: RegexEngine): (res: Result<seq<Row>, FilterError>)
    ensures res.Ok? ==> res.value == Select(f, rows, e)
    ensures res.Err? <==> exists i :: 0 <= i < |rows| && KeepRow(f, rows[i], e).Err?
    ensures PatternsCompile(f, e) ==> res.Ok?
  {
    if rows == [] then Ok([])
    else
      var keep :- KeepRow(f, rows[0], e);
      var rest :- FilterRows(f, rows[1..], e);
      Ok(if keep then [rows[0]] + rest else rest)
  }

  /** `sub` keeps some of the rows of `sup`, unchanged and in their order: each
      row of `sup` is either the next row of `sub` or skipped. */
  predicate IsSubsequence(sub: seq<Row>, sup: seq<Row>)
    decreases |sup|
  {
    if sup == [] then sub == []
    else (sub != [] && sub[0] == sup[0] && IsSubsequence(sub[1..], sup[1..])) || IsSubsequence(sub, sup[1..])
  }

  /** Filtering keeps the surviving rows unchanged and in their order. */
  lemma {:induction false} SelectIsSubsequence(f: Filter, rows: seq<Row>, e: RegexEngine)
    ensures IsSubsequence(Select(f, rows, e), rows)
  {
    if rows != [] {
      SelectIsSubsequence(f, rows[1..], e);
      if Admits(f, rows[0], e) {
        assert Select(f, rows, e)[1..] == Select(f, rows[1..], e);
      } else {
        assert Select(f, rows, e) == Select(f, rows[1..], e);
      }
    }
  }

  /** A row is in the result exactly when it is an input row the filter admits. */
  lemma {:induction false} SelectMembers(f: Filter, rows: seq<Row>, e: RegexEngine, r: Row)
    ensures r in Select(f, rows, e) <==> r in rows && Admits(f, r, e)
  {
    if rows != [] {
      SelectMembers(f, rows[1..], e, r);
      assert rows == [rows[0]] + rows[1..];
    }
  }

  /** With no truthy pattern on a filterable column nothing is dropped. */
  lemma {:induction false} FilterWithoutPatterns(f: Filter, rows: seq<Row>, e: RegexEngine)
    requires !Truthy(f.firstName) && !Truthy(f.lastName) && !Truthy(f.email)
    requires !Truthy(f.company) && !Truthy(f.phone)
    ensures FilterRows(f, rows, e) == Ok(rows)
  {
    if rows != [] {
      FilterWithoutPatterns(f, rows[1..], e);
      assert rows == [rows[0]] + rows[1..];
    }
  }

  /** The `id` and `birthDate` patterns never constrain. */
  lemma FilterIgnoresIdAndBirthDate(f: Filter, rows: seq<Row>, e: RegexEngine, id: Option<string>, birthDate: Option<string>)
    ensures FilterRows(f.(id := id, birthDate := birthDate), rows, e) == FilterRows(f, rows, e)
  {
    var g := f.(id := id, birthDate := birthDate);
    assert forall r :: KeepRow(g, r, e) == KeepRow(f, r, e);
  }
}
