/** Rows of a stored table and the query shapes the repositories are built from:
    filtering (a derived or JPQL `SELECT ... WHERE`), counting (`SELECT COUNT`),
    lookup by key (`findById`) and single-result queries (`Optional<T>`). */
module Tables {

  datatype Option<+T> = None | Some(value: T)

  datatype Result<+T, +E> = Success(value: T) | Failure(error: E)

  /** The outcome of an operation that returns nothing but may fail. */
  datatype Outcome<+E> = Pass | Fail(error: E)

  /** The outcome of a Spring Data query declared to return `Optional<T>`: no row,
      exactly one row, or more than one row (which the framework reports by throwing
      IncorrectResultSizeDataAccessException instead of returning a value). */
  datatype Single<+T> = NoRow | OneRow(row: T) | NonUnique

  /** The rows of `s` that satisfy `p`, in table order. */
  function Filter<T(!new)>(s: seq<T>, p: T -> bool): (r: seq<T>)
    ensures |r| <= |s|
    ensures forall x :: x in r <==> x in s && p(x)
  {
    if s == [] then []
    else if p(s[0]) then [s[0]] + Filter(s[1..], p)
    else Filter(s[1..], p)
  }

  /** The number of rows of `s` that satisfy `p`. */
  function Count<T(!new)>(s: seq<T>, p: T -> bool): (n: nat)
    ensures n <= |s|
    ensures n == 0 <==> forall x :: x in s ==> !p(x)
  {
    if s == [] then 0
    else (if p(s[0]) then 1 else 0) + Count(s[1..], p)
  }

  /** The position of the first row that satisfies `p`, if any. */
  function IndexWhere<T(!new)>(s: seq<T>, p: T -> bool): (r: Option<nat>)
    ensures r.Some? ==> r.value < |s| && p(s[r.value])
    ensures r.Some? ==> forall j :: 0 <= j < r.value ==> !p(s[j])
    ensures r.None? <==> forall x :: x in s ==> !p(x)
  {
    if s == [] then None
    else if p(s[0]) then Some(0)
    else match IndexWhere(s[1..], p)
      case None => None
      case Some(j) => Some(j + 1)
  }

  /** The first row that satisfies `p`, if any. */
  function FindFirst<T(!new)>(s: seq<T>, p: T -> bool): (r: Option<T>)
    ensures r.Some? ==> r.value in s && p(r.value)
    ensures r.None? <==> forall x :: x in s ==> !p(x)
  {
    match IndexWhere(s, p)
    case None => None
    case Some(i) => Some(s[i])
  }

  /** How a single-result query reports the rows its WHERE clause selected. */
  function SingleResult<T>(rows: seq<T>): (r: Single<T>)
    ensures r.NoRow? <==> |rows| == 0
    ensures r.NonUnique? <==> |rows| > 1
    ensures r.OneRow? ==> rows == [r.row]
  {
    if |rows| == 0 then NoRow
    else if |rows| == 1 then OneRow(rows[0])
    else NonUnique
  }

  lemma {:induction false} CountIsFilterLength<T(!new)>(s: seq<T>, p: T -> bool)
    ensures Count(s, p) == |Filter(s, p)|
  {
    if s != [] {
      CountIsFilterLength(s[1..], p);
    }
  }

  /** More than one counted row means two rows at distinct positions satisfy `p`. */
  lemma {:induction false} CountTwoWitnesses<T(!new)>(s: seq<T>, p: T -> bool) returns (i: nat, j: nat)
    requires Count(s, p) > 1
    ensures i < j < |s| && p(s[i]) && p(s[j])
  {
    if p(s[0]) {
      var k := IndexWhere(s[1..], p);
      i, j := 0, k.value + 1;
    } else {
      i, j := CountTwoWitnesses(s[1..], p);
      i, j := i + 1, j + 1;
    }
  }

  lemma {:induction false} FilterAppend<T(!new)>(a: seq<T>, b: seq<T>, p: T -> bool)
    ensures Filter(a + b, p) == Filter(a, p) + Filter(b, p)
  {
    if a == [] {
      assert a + b == b;
    } else {
      assert (a + b)[0] == a[0];
      assert (a + b)[1..] == a[1..] + b;
      FilterAppend(a[1..], b, p);
    }
  }

  lemma {:induction false} CountAppend<T(!new)>(a: seq<T>, b: seq<T>, p: T -> bool)
    ensures Count(a + b, p) == Count(a, p) + Count(b, p)
  {
    if a == [] {
      assert a + b == b;
    } else {
      assert (a + b)[0] == a[0];
      assert (a + b)[1..] == a[1..] + b;
      CountAppend(a[1..], b, p);
    }
  }

  /** Filtering by `p` and then by `q` selects the rows satisfying both, in the same order. */
  lemma {:induction false} FilterConjunction<T(!new)>(s: seq<T>, p: T -> bool, q: T -> bool, pq: T -> bool)
    requires forall x :: pq(x) == (p(x) && q(x))
    ensures Filter(Filter(s, p), q) == Filter(s, pq)
  {
    if s != [] {
      FilterConjunction(s[1..], p, q, pq);
    }
  }

  /** A weaker condition never selects fewer rows. */
  lemma {:induction false} CountMonotone<T(!new)>(s: seq<T>, p: T -> bool, q: T -> bool)
    requires forall x :: p(x) ==> q(x)
    ensures Count(s, p) <= Count(s, q)
  {
    if s != [] {
      CountMonotone(s[1..], p, q);
    }
  }

  /** Replacing one row changes a count by what the old and the new row contribute. */
  lemma {:induction false} CountUpdate<T(!new)>(s: seq<T>, i: nat, x: T, p: T -> bool)
    requires i < |s|
    ensures Count(s[i := x], p) == Count(s, p) - (if p(s[i]) then 1 else 0) + (if p(x) then 1 else 0)
  {
    if i == 0 {
      assert s[i := x][1..] == s[1..];
    } else {
      assert s[i := x][0] == s[0];
      assert s[i := x][1..] == s[1..][i - 1 := x];
      CountUpdate(s[1..], i - 1, x, p);
    }
  }

  /** Removing one row lowers a count by what that row contributed. */
  lemma {:induction false} CountRemove<T(!new)>(s: seq<T>, i: nat, p: T -> bool)
    requires i < |s|
    ensures Count(s[..i] + s[i + 1..], p) == Count(s, p) - (if p(s[i]) then 1 else 0)
  {
    var before, row, after := s[..i], [s[i]], s[i + 1..];
    assert s == before + (row + after);
    assert row[1..] == [];
    assert Count(row, p) == if p(s[i]) then 1 else 0;
    CountAppend(row, after, p);
    CountAppend(before, row + after, p);
    CountAppend(before, after, p);
  }
}
