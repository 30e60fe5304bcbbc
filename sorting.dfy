/** The sort stage of the derived-row pipeline: a single-key comparator over the
    upper-cased field value, multiplied by a direction, applied by a stable
    in-place sort of the array (`data.sort(...)`). */
module Sorting {
  import opened Rows
  import opened Text

  /** The table's sort intent (`SortType` when defined). */
  datatype SortSpec = SortSpec(field: Column, direction: string)

  /** `direction === "desc" ? 1 : -1`. Note that "desc" gives 1, so it orders
      keys from smallest to largest. */
  function Dir(direction: string): int {
    if direction == "desc" then 1 else -1
  }

  /** The sort key of a row: `row[field].toUpperCase()`. `upper` is the
      runtime's `toUpperCase`, left abstract; every property of the sort holds
      whatever it is, and `Text.ToUpper` is its ASCII part. */
  function Key(r: Row, field: Column, upper: string -> string): string {
    upper(Field(r, field))
  }

  /** The comparator passed to `sort`. */
  function Compare(a: Row, b: Row, s: SortSpec, upper: string -> string): (c: int)
    ensures c == -1 || c == 0 || c == 1
  {
    var nameA := Key(a, s.field, upper);
    var nameB := Key(b, s.field, upper);
    var result := if Less(nameA, nameB) then -1 else if Less(nameB, nameA) then 1 else 0;
    result * Dir(s.direction)
  }

  /** The comparator reports a tie exactly when the two keys are equal. */
  lemma CompareZeroIff(a: Row, b: Row, s: SortSpec, upper: string -> string)
    ensures Compare(a, b, s, upper) == 0 <==> Key(a, s.field, upper) == Key(b, s.field, upper)
  {
    LessIrreflexive(Key(a, s.field, upper));
    LessTrichotomous(Key(a, s.field, upper), Key(b, s.field, upper));
  }

  /** Swapping the arguments negates the comparator. */
  lemma CompareAntisymmetric(a: Row, b: Row, s: SortSpec, upper: string -> string)
    ensures Compare(a, b, s, upper) == -Compare(b, a, s, upper)
  {
    LessAsymmetric(Key(a, s.field, upper), Key(b, s.field, upper));
  }

  /** "Not after" is transitive, so the comparator is a consistent total preorder. */
  lemma CompareTransitive(a: Row, b: Row, c: Row, s: SortSpec, upper: string -> string)
    requires Compare(a, b, s, upper) <= 0 && Compare(b, c, s, upper) <= 0
    ensures Compare(a, c, s, upper) <= 0
  {
    var ka, kb, kc := Key(a, s.field, upper), Key(b, s.field, upper), Key(c, s.field, upper);
    LessTrichotomous(ka, kb);
    LessTrichotomous(kb, kc);
    LessTrichotomous(ka, kc);
    LessIrreflexive(ka);
    if Less(ka, kb) && Less(kb, kc) {
      LessTransitive(ka, kb, kc);
      LessAsymmetric(ka, kc);
    }
    if Less(kb, ka) && Less(kc, kb) {
      LessTransitive(kc, kb, ka);
      LessAsymmetric(kc, ka);
    }
  }

  /** Each row is no later than its successor by the comparator. */
  predicate Sorted(rows: seq<Row>, s: SortSpec, upper: string -> string) {
    forall i :: 0 <= i < |rows| - 1 ==> Compare(rows[i], rows[i + 1], s, upper) <= 0
  }

  /** The comparator as the function value handed to `sort`. */
  function Comparator(s: SortSpec, upper: string -> string): (Row, Row) -> int {
    (a: Row, b: Row) => Compare(a, b, s, upper)
  }

  /** Inserts `x` behind the last row it does not precede, scanning from the end
      as a stable insertion sort does. */
  function Insert(rows: seq<Row>, x: Row, cmp: (Row, Row) -> int): seq<Row> {
    if rows == [] || cmp(rows[|rows| - 1], x) <= 0 then rows + [x]
    else Insert(rows[..|rows| - 1], x, cmp) + [rows[|rows| - 1]]
  }

  /** The order a stable insertion sort with comparator `cmp` leaves `rows` in. */
  function SortBy(rows: seq<Row>, cmp: (Row, Row) -> int): seq<Row> {
    if rows == [] then []
    else Insert(SortBy(rows[..|rows| - 1], cmp), rows[|rows| - 1], cmp)
  }

  /** The order the sort stage leaves `rows` in. */
  function SortRows(rows: seq<Row>, s: SortSpec, upper: string -> string): seq<Row> {
    SortBy(rows, Comparator(s, upper))
  }

  lemma {:induction false} InsertPermutes(rows: seq<Row>, x: Row, cmp: (Row, Row) -> int)
    ensures multiset(Insert(rows, x, cmp)) == multiset(rows) + multiset{x}
  {
    if rows != [] && cmp(rows[|rows| - 1], x) > 0 {
      var init, last := rows[..|rows| - 1], rows[|rows| - 1];
      InsertPermutes(init, x, cmp);
      assert rows == init + [last];
    }
  }

  /** Sorting only reorders: the output holds the same rows, each as often,
      whatever the comparator. */
  lemma {:induction false} SortPermutes(rows: seq<Row>, cmp: (Row, Row) -> int)
    ensures multiset(SortBy(rows, cmp)) == multiset(rows)
    ensures |SortBy(rows, cmp)| == |rows|
  {
    if rows != [] {
      var init, last := rows[..|rows| - 1], rows[|rows| - 1];
      SortPermutes(init, cmp);
      InsertPermutes(SortBy(init, cmp), last, cmp);
      assert rows == init + [last];
    }
    assert |multiset(SortBy(rows, cmp))| == |SortBy(rows, cmp)|;
  }

  lemma {:induction false} InsertSorted(rows: seq<Row>, x: Row, s: SortSpec, upper: string -> string)
    requires Sorted(rows, s, upper)
    ensures Sorted(Insert(rows, x, Comparator(s, upper)), s, upper)
    ensures |Insert(rows, x, Comparator(s, upper))| == |rows| + 1
    ensures Insert(rows, x, Comparator(s, upper))[|rows|] == x || Insert(rows, x, Comparator(s, upper))[|rows|] == rows[|rows| - 1]
  {
    if rows != [] && Compare(rows[|rows| - 1], x, s, upper) > 0 {
      var init, last := rows[..|rows| - 1], rows[|rows| - 1];
      InsertSorted(init, x, s, upper);
      var r := Insert(init, x, Comparator(s, upper));
      CompareAntisymmetric(last, x, s, upper);
      assert Compare(r[|init|], last, s, upper) <= 0;
    }
  }

  /** The output of the sort is ordered by the comparator. */
  lemma {:induction false} SortSorted(rows: seq<Row>, s: SortSpec, upper: string -> string)
    ensures Sorted(SortRows(rows, s, upper), s, upper)
  {
    if rows != [] {
      SortSorted(rows[..|rows| - 1], s, upper);
      InsertSorted(SortRows(rows[..|rows| - 1], s, upper), rows[|rows| - 1], s, upper);
    }
  }

  /** The rows of `rows` whose sort key is `k`, in their order in `rows`. */
  function WithKey(rows: seq<Row>, field: Column, k: string, upper: string -> string): seq<Row> {
    if rows == [] then []
    else WithKey(rows[..|rows| - 1], field, k, upper) + (if Key(rows[|rows| - 1], field, upper) == k then [rows[|rows| - 1]] else [])
  }

  lemma {:induction false} InsertStable(rows: seq<Row>, x: Row, s: SortSpec, upper: string -> string, k: string)
    ensures WithKey(Insert(rows, x, Comparator(s, upper)), s.field, k, upper)
         == WithKey(rows, s.field, k, upper) + (if Key(x, s.field, upper) == k then [x] else [])
  {
    if rows == [] || Compare(rows[|rows| - 1], x, s, upper) <= 0 {
      assert (rows + [x])[..|rows|] == rows;
    } else {
      var init, last := rows[..|rows| - 1], rows[|rows| - 1];
      InsertStable(init, x, s, upper, k);
      assert (Insert(init, x, Comparator(s, upper)) + [last])[..|Insert(init, x, Comparator(s, upper))|] == Insert(init, x, Comparator(s, upper));
      CompareZeroIff(last, x, s, upper);
    }
  }

  /** The sort is stable: rows with equal keys keep their relative order. */
  lemma {:induction false} SortStable(rows: seq<Row>, s: SortSpec, upper: string -> string, k: string)
    ensures WithKey(SortRows(rows, s, upper), s.field, k, upper) == WithKey(rows, s.field, k, upper)
  {
    if rows != [] {
      var init, last := rows[..|rows| - 1], rows[|rows| - 1];
      SortStable(init, s, upper, k);
      InsertStable(SortRows(init, s, upper), last, s, upper, k);
    }
  }

  lemma {:induction false} WithKeyMembers(rows: seq<Row>, field: Column, k: string, x: Row, upper: string -> string)
    ensures x in WithKey(rows, field, k, upper) <==> x in rows && Key(x, field, upper) == k
  {
    if rows != [] {
      WithKeyMembers(rows[..|rows| - 1], field, k, x, upper);
      assert rows == rows[..|rows| - 1] + [rows[|rows| - 1]];
    }
  }

  /** Two sorted lists with the same rows per key end with the same row. */
  lemma SortedSameLast(t: seq<Row>, u: seq<Row>, s: SortSpec, upper: string -> string)
    requires |t| == |u| > 0 && Sorted(t, s, upper) && Sorted(u, s, upper)
    requires forall k :: WithKey(t, s.field, k, upper) == WithKey(u, s.field, k, upper)
    ensures t[|t| - 1] == u[|u| - 1]
  {
    var n := |t|;
    var a, b := t[n - 1], u[n - 1];
    SortedPairwise(t, s, upper);
    SortedPairwise(u, s, upper);
    LastIsLatest(t, u, s, upper);
    LastIsLatest(u, t, s, upper);
    CompareAntisymmetric(a, b, s, upper);
    CompareZeroIff(a, b, s, upper);
    var k := Key(a, s.field, upper);
    var wt, wu := WithKey(t[..n - 1], s.field, k, upper), WithKey(u[..n - 1], s.field, k, upper);
    assert WithKey(t, s.field, k, upper) == wt + [a];
    assert WithKey(u, s.field, k, upper) == wu + [b];
    assert (wt + [a])[|wt|] == a && (wu + [b])[|wu|] == b;
  }

  /** Dropping a common last row keeps the rows per key equal. */
  lemma WithKeyDropLast(t: seq<Row>, u: seq<Row>, ti: seq<Row>, ui: seq<Row>, field: Column, upper: string -> string)
    requires |t| == |u| > 0 && t[|t| - 1] == u[|u| - 1]
    requires ti == t[..|t| - 1] && ui == u[..|u| - 1]
    requires forall k :: WithKey(t, field, k, upper) == WithKey(u, field, k, upper)
    ensures forall k :: WithKey(ti, field, k, upper) == WithKey(ui, field, k, upper)
  {
    var a := t[|t| - 1];
    forall k ensures WithKey(ti, field, k, upper) == WithKey(ui, field, k, upper) {
      var x := if Key(a, field, upper) == k then [a] else [];
      var wt, wu := WithKey(ti, field, k, upper), WithKey(ui, field, k, upper);
      assert WithKey(t, field, k, upper) == wt + x;
      assert WithKey(u, field, k, upper) == wu + x;
      assert wt == (wt + x)[..|wt|] && wu == (wu + x)[..|wu|];
    }
  }

  /** Two sorted sequences of the same length that list the rows of every key
      in the same order are equal. */
  lemma {:induction false} SortedStableEqual(t: seq<Row>, u: seq<Row>, s: SortSpec, upper: string -> string)
    requires |t| == |u| && Sorted(t, s, upper) && Sorted(u, s, upper)
    requires forall k :: WithKey(t, s.field, k, upper) == WithKey(u, s.field, k, upper)
    ensures t == u
  {
    if |t| > 0 {
      var n := |t|;
      var ti, ui := t[..n - 1], u[..n - 1];
      SortedSameLast(t, u, s, upper);
      WithKeyDropLast(t, u, ti, ui, s.field, upper);
      assert Sorted(ti, s, upper) && Sorted(ui, s, upper);
      SortedStableEqual(ti, ui, s, upper);
      assert t == ti + [t[n - 1]] && u == ui + [u[n - 1]];
    }
  }

  /** The last row of a sorted, non-empty `u` is no earlier than the last row of
      `t` when both list the same rows for every key. */
  lemma LastIsLatest(t: seq<Row>, u: seq<Row>, s: SortSpec, upper: string -> string)
    requires |t| > 0 && |u| > 0
    requires forall i, j :: 0 <= i < j < |u| ==> Compare(u[i], u[j], s, upper) <= 0
    requires forall k :: WithKey(t, s.field, k, upper) == WithKey(u, s.field, k, upper)
    ensures Compare(t[|t| - 1], u[|u| - 1], s, upper) <= 0
  {
    var a := t[|t| - 1];
    var k := Key(a, s.field, upper);
    WithKeyMembers(t, s.field, k, a, upper);
    assert a in WithKey(u, s.field, k, upper);
    WithKeyMembers(u, s.field, k, a, upper);
    var j :| 0 <= j < |u| && u[j] == a;
    CompareZeroIff(a, a, s, upper);
  }

  /** `SortRows` is the only ordering a stable sort may produce: any sorted
      permutation that keeps rows with equal keys in their input order is it. */
  lemma SortUnique(rows: seq<Row>, t: seq<Row>, s: SortSpec, upper: string -> string)
    requires multiset(t) == multiset(rows) && Sorted(t, s, upper)
    requires forall k :: WithKey(t, s.field, k, upper) == WithKey(rows, s.field, k, upper)
    ensures t == SortRows(rows, s, upper)
  {
    var u := SortRows(rows, s, upper);
    SortPermutes(rows, Comparator(s, upper));
    SortSorted(rows, s, upper);
    forall k ensures WithKey(t, s.field, k, upper) == WithKey(u, s.field, k, upper) {
      SortStable(rows, s, upper, k);
    }
    assert |t| == |multiset(t)| == |multiset(rows)| == |rows|;
    SortedStableEqual(t, u, s, upper);
  }

  /** Rows that are already in order are left where they are. */
  lemma {:induction false} SortKeepsSorted(rows: seq<Row>, s: SortSpec, upper: string -> string)
    requires Sorted(rows, s, upper)
    ensures SortRows(rows, s, upper) == rows
  {
    if rows != [] {
      var init, last := rows[..|rows| - 1], rows[|rows| - 1];
      assert Sorted(init, s, upper);
      SortKeepsSorted(init, s, upper);
      assert init + [last] == rows;
    }
  }

  /** Sorting twice by the same key gives what sorting once gives. */
  lemma SortIdempotent(rows: seq<Row>, s: SortSpec, upper: string -> string)
    ensures SortRows(SortRows(rows, s, upper), s, upper) == SortRows(rows, s, upper)
  {
    SortSorted(rows, s, upper);
    SortKeepsSorted(SortRows(rows, s, upper), s, upper);
  }

  /** In sorted rows every row, not only the next one, is no later than those behind it. */
  lemma {:induction false} SortedPairwise(rows: seq<Row>, s: SortSpec, upper: string -> string)
    requires Sorted(rows, s, upper)
    ensures forall i, j :: 0 <= i < j < |rows| ==> Compare(rows[i], rows[j], s, upper) <= 0
  {
    if |rows| > 1 {
      var init := rows[..|rows| - 1];
      assert Sorted(init, s, upper);
      SortedPairwise(init, s, upper);
      forall i | 0 <= i < |rows| - 1
        ensures Compare(rows[i], rows[|rows| - 1], s, upper) <= 0
      {
        if i < |rows| - 2 {
          assert Compare(init[i], init[|rows| - 2], s, upper) <= 0;
          CompareTransitive(rows[i], rows[|rows| - 2], rows[|rows| - 1], s, upper);
        }
      }
    }
  }

  /** With direction "desc" sorted rows have non-decreasing upper-cased keys. */
  lemma DescendingDirectionAscends(rows: seq<Row>, s: SortSpec, upper: string -> string)
    requires s.direction == "desc" && Sorted(rows, s, upper)
    ensures forall i, j :: 0 <= i < j < |rows| ==> LessEq(Key(rows[i], s.field, upper), Key(rows[j], s.field, upper))
  {
    SortedPairwise(rows, s, upper);
    forall i, j | 0 <= i < j < |rows|
      ensures LessEq(Key(rows[i], s.field, upper), Key(rows[j], s.field, upper))
    {
      LessTrichotomous(Key(rows[i], s.field, upper), Key(rows[j], s.field, upper));
    }
  }

  /** With any other direction sorted rows have non-increasing upper-cased keys. */
  lemma OtherDirectionDescends(rows: seq<Row>, s: SortSpec, upper: string -> string)
    requires s.direction != "desc" && Sorted(rows, s, upper)
    ensures forall i, j :: 0 <= i < j < |rows| ==> LessEq(Key(rows[j], s.field, upper), Key(rows[i], s.field, upper))
  {
    SortedPairwise(rows, s, upper);
    forall i, j | 0 <= i < j < |rows|
      ensures LessEq(Key(rows[j], s.field, upper), Key(rows[i], s.field, upper))
    {
      LessTrichotomous(Key(rows[i], s.field, upper), Key(rows[j], s.field, upper));
    }
  }

  function Named(first: string): Row {
    Row("", first, "", "", "", "", "")
  }

  lemma ExampleKeys()
    ensures Key(Named("Bob"), FirstName, ToUpper) == "BOB"
    ensures Key(Named("alice"), FirstName, ToUpper) == "ALICE"
    ensures Key(Named("Carl"), FirstName, ToUpper) == "CARL"
    ensures Less("ALICE", "BOB") && !Less("BOB", "ALICE")
    ensures Less("BOB", "CARL") && !Less("CARL", "BOB")
  {
    LessAsymmetric("ALICE", "BOB");
    LessAsymmetric("BOB", "CARL");
  }

  lemma ExampleComparisons()
    ensures var cmp := Comparator(SortSpec(FirstName, "desc"), ToUpper);
      cmp(Named("Bob"), Named("alice")) == 1 && cmp(Named("Bob"), Named("Carl")) == -1
    ensures var cmp := Comparator(SortSpec(FirstName, "asc"), ToUpper);
      cmp(Named("Bob"), Named("alice")) == -1 && cmp(Named("Bob"), Named("Carl")) == 1
      && cmp(Named("alice"), Named("Carl")) == 1
  {
    ExampleKeys();
    LessTransitive("ALICE", "BOB", "CARL");
  }

  lemma SortByTwo(x: Row, y: Row, cmp: (Row, Row) -> int)
    ensures SortBy([x, y], cmp) == Insert([x], y, cmp)
  {
    assert [x, y][..1] == [x] && [x][..0] == [];
    assert SortBy([x], cmp) == [x];
  }

  lemma SortByThree(x: Row, y: Row, z: Row, cmp: (Row, Row) -> int)
    ensures SortBy([x, y, z], cmp) == Insert(SortBy([x, y], cmp), z, cmp)
  {
    assert [x, y, z][..2] == [x, y];
  }

  lemma SortThreeSwapFirst(x: Row, y: Row, z: Row, cmp: (Row, Row) -> int)
    requires cmp(x, y) > 0 && cmp(x, z) <= 0
    ensures SortBy([x, y, z], cmp) == [y, x, z]
  {
    SortByTwo(x, y, cmp);
    SortByThree(x, y, z, cmp);
    assert Insert([x], y, cmp) == Insert([], y, cmp) + [x] == [y, x];
    assert Insert([y, x], z, cmp) == [y, x] + [z] == [y, x, z];
  }

  lemma SortThreeLastFirst(x: Row, y: Row, z: Row, cmp: (Row, Row) -> int)
    requires cmp(x, y) <= 0 && cmp(y, z) > 0 && cmp(x, z) > 0
    ensures SortBy([x, y, z], cmp) == [z, x, y]
  {
    SortByTwo(x, y, cmp);
    SortByThree(x, y, z, cmp);
    assert Insert([x], y, cmp) == [x] + [y] == [x, y];
    assert [x, y][..1] == [x] && [x][..0] == [];
    assert Insert([x], z, cmp) == Insert([], z, cmp) + [x] == [z, x];
    assert Insert([x, y], z, cmp) == Insert([x], z, cmp) + [y] == [z, x, y];
  }

  /** Case is ignored, and "desc" lists names from A to Z. */
  lemma DescendingExample()
    ensures SortRows([Named("Bob"), Named("alice"), Named("Carl")], SortSpec(FirstName, "desc"), ToUpper)
         == [Named("alice"), Named("Bob"), Named("Carl")]
  {
    ExampleComparisons();
    SortThreeSwapFirst(Named("Bob"), Named("alice"), Named("Carl"), Comparator(SortSpec(FirstName, "desc"), ToUpper));
  }

  /** Any direction other than "desc" lists the same names from Z to A. */
  lemma AscendingExample()
    ensures SortRows([Named("Bob"), Named("alice"), Named("Carl")], SortSpec(FirstName, "asc"), ToUpper)
         == [Named("Carl"), Named("Bob"), Named("alice")]
  {
    ExampleComparisons();
    SortThreeLastFirst(Named("Bob"), Named("alice"), Named("Carl"), Comparator(SortSpec(FirstName, "asc"), ToUpper));
  }

  /** `Insert` puts `x` right behind the last row it does not precede. */
  lemma {:induction false} InsertSplit(rows: seq<Row>, j: nat, x: Row, cmp: (Row, Row) -> int)
    requires j <= |rows|
    requires j == 0 || cmp(rows[j - 1], x) <= 0
    requires forall k :: j <= k < |rows| ==> cmp(rows[k], x) > 0
    ensures Insert(rows, x, cmp) == rows[..j] + [x] + rows[j..]
    decreases |rows| - j
  {
    if j < |rows| {
      var init := rows[..|rows| - 1];
      InsertSplit(init, j, x, cmp);
      assert init[..j] == rows[..j];
      assert init[j..] + [rows[|rows| - 1]] == rows[j..];
    } else {
      assert rows[..j] == rows;
    }
  }

  /** The scan of one insertion pass: moves the rows of `a[..i]` that `a[i]`
      precedes one place up and returns the slot left free for it. */
  method ShiftPreceded(a: array<Row>, i: nat, cmp: (Row, Row) -> int) returns (j: nat)
    requires i < a.Length
    modifies a
    ensures j <= i
    ensures forall k :: 0 <= k < j ==> a[k] == old(a[k])
    ensures forall k :: j < k <= i ==> a[k] == old(a[k - 1])
    ensures forall k :: i < k < a.Length ==> a[k] == old(a[k])
    ensures Insert(old(a[..i]), old(a[i]), cmp) == old(a[..j]) + [old(a[i])] + old(a[j..i])
  {
    ghost var sorted := a[..i];
    var x := a[i];
    j := i;
    while j > 0 && cmp(a[j - 1], x) > 0
      invariant j <= i
      invariant forall k :: 0 <= k < j ==> a[k] == old(a[k])
      invariant forall k :: j < k <= i ==> a[k] == old(a[k - 1])
      invariant forall k :: i < k < a.Length ==> a[k] == old(a[k])
      invariant forall k :: j <= k < i ==> cmp(old(a[k]), x) > 0
    {
      a[j] := a[j - 1];
      j := j - 1;
    }
    InsertSplit(sorted, j, x, cmp);
  }

  /** One pass of the insertion sort: moves `a[i]` back past the rows of
      `a[..i]` that it precedes. */
  method InsertAt(a: array<Row>, i: nat, cmp: (Row, Row) -> int)
    requires i < a.Length
    modifies a
    ensures a[..i + 1] == Insert(old(a[..i]), old(a[i]), cmp)
    ensures forall k :: i < k < a.Length ==> a[k] == old(a[k])
  {
    ghost var sorted := a[..i];
    var x := a[i];
    var j := ShiftPreceded(a, i, cmp);
    a[j] := x;
    ghost var inserted := sorted[..j] + [x] + sorted[j..];
    assert a[..i + 1] == inserted by {
      forall k | 0 <= k <= i
        ensures a[k] == inserted[k]
      {
        if k < j {
          assert a[k] == sorted[k];
        } else if j < k {
          assert a[k] == sorted[k - 1];
        }
      }
    }
  }

  /** Sorting one more row is inserting it into the sorted prefix. */
  lemma SortByStep(rows: seq<Row>, i: nat, cmp: (Row, Row) -> int)
    requires i < |rows|
    ensures SortBy(rows[..i + 1], cmp) == Insert(SortBy(rows[..i], cmp), rows[i], cmp)
  {
    assert rows[..i + 1][..i] == rows[..i];
  }

  /** `data.sort(compare)`: a stable insertion sort of the array in place. */
  method SortInPlace(a: array<Row>, cmp: (Row, Row) -> int)
    modifies a
    ensures a[..] == SortBy(old(a[..]), cmp)
  {
    ghost var rows := a[..];
    var i := 0;
    while i < a.Length
      invariant 0 <= i <= a.Length
      invariant a[..i] == SortBy(rows[..i], cmp)
      invariant forall k :: i <= k < a.Length ==> a[k] == rows[k]
    {
      SortByStep(rows, i, cmp);
      InsertAt(a, i, cmp);
      i := i + 1;
    }
    assert a[..] == a[..a.Length] && rows == rows[..a.Length];
  }
}
