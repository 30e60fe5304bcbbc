/** The `UserTable` component: its state (`dataTable`, `loading`, `error`,
    `filter`, `sort`), the events that change it (completion of `fetchData`,
    `onSort`, `onFilter`), the derived rows it renders and the two
    placeholders shown when there are none. */
module UserTableComponent {
  import opened Wrappers
  import opened Rows
  import opened Filtering
  import opened Sorting

  /** How one call of `fetchData` ends. `Delivered` carries the parsed JSON
      body of an `ok` response; `Failed` covers a network failure, a response
      that is not `ok` and a body that is not JSON. */
  datatype FetchOutcome = Delivered(users: seq<RawUser>) | Failed

  /** The result of the memoised derivation: the rows handed to the table, or
      the exception the filter callback threw. */
  datatype Derived = Rendered(rows: array<Row>) | Thrown(error: FilterError)

  /** The derived rows as values: filter when a filter object is set, then
      sort when a sort is set. */
  function DeriveRows(rows: seq<Row>, filter: Option<Filter>, sort: Option<SortSpec>, e: RegexEngine, upper: string -> string): (res: Result<seq<Row>, FilterError>)
    ensures filter.None? ==> res.Ok?
    ensures res.Err? <==> filter.Some? && exists i :: 0 <= i < |rows| && KeepRow(filter.value, rows[i], e).Err?
    ensures res.Ok? && sort.None? ==> res.value == (if filter.Some? then Select(filter.value, rows, e) else rows)
    ensures res.Ok? ==> multiset(res.value) == multiset(if filter.Some? then Select(filter.value, rows, e) else rows)
    ensures res.Ok? && sort.Some? ==> Sorted(res.value, sort.value, upper)
    ensures res.Ok? && sort.Some? ==> res.value == SortRows(if filter.Some? then Select(filter.value, rows, e) else rows, sort.value, upper)
  {
    var filtered :- if filter.Some? then FilterRows(filter.value, rows, e) else Ok(rows);
    if sort.Some? then
      SortPermutes(filtered, Comparator(sort.value, upper));
      SortSorted(filtered, sort.value, upper);
      Ok(SortRows(filtered, sort.value, upper))
    else Ok(filtered)
  }

  /** Copies a sequence of rows into a new array. */
  method NewArray(rows: seq<Row>) returns (a: array<Row>)
    ensures fresh(a) && a[..] == rows
  {
    a := new Row[|rows|](i requires 0 <= i < |rows| => rows[i]);
  }

  class UserTable {
    var dataTable: array<Row>
    var loading: bool
    var error: bool
    var filter: Option<Filter>
    var sort: Option<SortSpec>

    /** Every reachable state: `loading` is only set before the first request
        has ended, and then nothing is stored and no error is recorded. */
    ghost predicate Valid()
      reads this
    {
      loading ==> !error && dataTable.Length == 0
    }

    /** Mounting: the initial state of the five `useState` hooks. */
    constructor ()
      ensures Valid()
      ensures fresh(dataTable) && dataTable.Length == 0
      ensures loading && !error
      ensures filter == None && sort == None
    {
      dataTable := new Row[0];
      loading := true;
      error := false;
      filter := None;
      sort := None;
    }

    /** The end of one `fetchData` call (on mount or from the retry button):
        the `then` handlers, the `catch` handler and the `finally` handler.
        Starting a call changes nothing, so `loading` is never set again. */
    method Settle(outcome: FetchOutcome)
      requires Valid()
      modifies this
      ensures Valid()
      ensures !loading
      ensures filter == old(filter) && sort == old(sort)
      ensures outcome.Delivered? && ToDataTable(outcome.users).Some? ==>
        && fresh(dataTable)
        && dataTable[..] == ToDataTable(outcome.users).value
        && error == old(error)
      ensures outcome.Failed? || ToDataTable(outcome.users).None? ==>
        && dataTable == old(dataTable)
        && error
    {
      if outcome.Delivered? {
        var mapped := ToDataTable(outcome.users);
        if mapped.Some? {
          dataTable := NewArray(mapped.value);
        } else {
          error := true;
        }
      } else {
        error := true;
      }
      loading := false;
    }

    /** `onSort`: replaces the sort intent. */
    method OnSort(s: Option<SortSpec>)
      modifies this`sort
      ensures sort == s
    {
      sort := s;
    }

    /** `onFilter`: stores a copy of the reported filter object;
        `Object.assign({}, undefined)` is `{}`, so a filter is set from then on. */
    method OnFilter(f: Option<Filter>)
      modifies this`filter
      ensures filter == Some(f.GetOr(NoPatterns))
    {
      filter := Some(f.GetOr(NoPatterns));
    }

    /** The `useMemo` callback. Without a filter object `data` is `dataTable`
        itself, so the in-place sort reorders the stored rows; with one, the
        filter builds a new array and only that is sorted. */
    method Derive(e: RegexEngine, upper: string -> string) returns (d: Derived)
      modifies dataTable
      ensures d.Thrown? <==> DeriveRows(old(dataTable[..]), filter, sort, e, upper).Err?
      ensures d.Thrown? ==> d.error == DeriveRows(old(dataTable[..]), filter, sort, e, upper).error
      ensures d.Rendered? ==> d.rows[..] == DeriveRows(old(dataTable[..]), filter, sort, e, upper).value
      ensures filter.None? ==> d == Rendered(dataTable)
      ensures filter.Some? ==> dataTable[..] == old(dataTable[..]) && (d.Rendered? ==> fresh(d.rows))
    {
      var data := dataTable;
      if filter.Some? {
        var filtered := FilterRows(filter.value, dataTable[..], e);
        if filtered.Err? {
          return Thrown(filtered.error);
        }
        data := NewArray(filtered.value);
      }
      if sort.Some? {
        SortInPlace(data, Comparator(sort.value, upper));
      }
      d := Rendered(data);
    }

    /** The loading placeholder is rendered. */
    predicate LoadingShown(data: seq<Row>)
      reads this
    {
      |data| == 0 && loading
    }

    /** The error placeholder with the retry button is rendered. */
    predicate ErrorShown(data: seq<Row>)
      reads this
    {
      |data| == 0 && error
    }

    /** In a reachable state the two placeholders are never rendered together,
        the loading one only while nothing has been stored, and neither when
        there are rows to show. */
    lemma PlaceholdersExclusive(data: seq<Row>)
      requires Valid()
      ensures !(LoadingShown(data) && ErrorShown(data))
      ensures LoadingShown(data) ==> dataTable.Length == 0
      ensures |data| > 0 ==> !LoadingShown(data) && !ErrorShown(data)
    {
    }
  }
}
