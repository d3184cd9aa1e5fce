/**
 * The data reshaper of reclass.js (reFormatData): flat spreadsheet rows
 * become a map district -> position -> {Range, Pay}, where Pay lists the
 * pay for years of service 1..35 in order. Pay is modelled in integer
 * cents; the source's toFixed(2) formatting is not modelled.
 */
module Reshaper {

  datatype Option<T> = None | Some(value: T)

  datatype Result<T, E> = Success(value: T) | Failure(error: E)

  /** YEARS_OF_SERVICE: the length of every pay series. */
  const Years: int := 35

  /**
   * One spreadsheet row: District, Position, Range and the numeric columns
   * keyed by year of service (1..35), pay in cents.
   */
  datatype Row = Row(district: string, position: string, range: string, years: map<int, int>)

  /** One position of one district: its Range label and its pay by year (index 0 = year 1). */
  datatype Job = Job(range: string, pay: seq<int>)

  /** DATA: district -> position -> Job. */
  type Catalog = map<string, map<string, Job>>

  /**
   * The error reFormatData runs into: `data[i][year]` is undefined, so
   * `.toFixed` throws a TypeError.
   */
  datatype ReshapeError = MissingYear(row: int, year: int)

  /** The row has a pay column for every year of service. */
  ghost predicate Complete(r: Row)
  {
    forall y :: 1 <= y <= Years ==> y in r.years
  }

  /** The first year from `y` on whose column the row lacks, if any. */
  function MissingYearFrom(r: Row, y: int): (m: Option<int>)
    requires 1 <= y <= Years + 1
    ensures m.None? <==> forall z :: y <= z <= Years ==> z in r.years
    ensures m.Some? ==> y <= m.value <= Years && m.value !in r.years
    ensures m.Some? ==> forall z :: y <= z < m.value ==> z in r.years
    decreases Years + 1 - y
  {
    if y > Years then None
    else if y !in r.years then Some(y)
    else MissingYearFrom(r, y + 1)
  }

  /** The row's pay series, year 1 first. */
  function PayOf(r: Row): (pay: seq<int>)
    requires Complete(r)
    ensures |pay| == Years
    ensures forall k :: 0 <= k < Years ==> pay[k] == r.years[k + 1]
  {
    seq(Years, k requires 0 <= k < Years => r.years[k + 1])
  }

  /**
   * Stores a complete row: creates the district's map if the district is
   * new, then sets (or overwrites) the row's position in it.
   */
  function Insert(c: Catalog, r: Row): (c': Catalog)
    requires Complete(r)
    ensures forall d :: d in c' <==> d in c || d == r.district
    ensures forall p :: p in c'[r.district] <==> p == r.position || (r.district in c && p in c[r.district])
    ensures c'[r.district][r.position] == Job(r.range, PayOf(r))
    ensures forall d :: d in c && d != r.district ==> c'[d] == c[d]
    ensures r.district in c ==>
      forall p :: p in c[r.district] && p != r.position ==> c'[r.district][p] == c[r.district][p]
  {
    var positions := if r.district in c then c[r.district] else map[];
    c[r.district := positions[r.position := Job(r.range, PayOf(r))]]
  }

  /**
   * What reFormatData returns for the rows, processed in order: the first
   * row lacking a year column fails; otherwise every row is inserted, a
   * later row with the same (District, Position) overwriting an earlier one.
   */
  function Reshaped(rows: seq<Row>): Result<Catalog, ReshapeError>
    decreases |rows|
  {
    if rows == [] then Success(map[])
    else
      var last := rows[|rows| - 1];
      match Reshaped(rows[..|rows| - 1])
      case Failure(e) => Failure(e)
      case Success(c) =>
        match MissingYearFrom(last, 1)
        case Some(y) => Failure(MissingYear(|rows| - 1, y))
        case None => Success(Insert(c, last))
  }

  /**
   * Insert is what the source's two statements do: create the district's map
   * when the district is new, then store the position in it.
   */
  lemma InsertInTwoSteps(c: Catalog, r: Row)
    requires Complete(r)
    ensures var c1 := if r.district !in c then c[r.district := map[]] else c;
      c1[r.district := c1[r.district][r.position := Job(r.range, PayOf(r))]] == Insert(c, r)
  {
  }

  /** One step of Reshaped: a complete row after a successful prefix is inserted. */
  lemma ReshapedStep(rows: seq<Row>)
    requires rows != []
    requires Reshaped(rows[..|rows| - 1]).Success?
    requires Complete(rows[|rows| - 1])
    ensures Reshaped(rows) == Success(Insert(Reshaped(rows[..|rows| - 1]).value, rows[|rows| - 1]))
  {
  }

  /** One step of Reshaped: a row lacking a year after a successful prefix fails. */
  lemma ReshapedStepFails(rows: seq<Row>)
    requires rows != []
    requires Reshaped(rows[..|rows| - 1]).Success?
    requires MissingYearFrom(rows[|rows| - 1], 1).Some?
    ensures Reshaped(rows) == Failure(MissingYear(|rows| - 1, MissingYearFrom(rows[|rows| - 1], 1).value))
  {
  }

  /** Every pay series of the catalog has one figure per year of service. */
  ghost predicate WellFormed(c: Catalog)
  {
    forall d, p :: d in c && p in c[d] ==> |c[d][p].pay| == Years
  }

  /**
   * The inner loop of reFormatData: the row's pay for years 1..35 in order,
   * or the first year whose column is missing.
   */
  method ReadPay(row: Row) returns (pay: Result<seq<int>, int>)
    ensures MissingYearFrom(row, 1).None? ==> pay == Success(PayOf(row))
    ensures MissingYearFrom(row, 1).Some? ==> pay == Failure(MissingYearFrom(row, 1).value)
  {
    var acc: seq<int> := [];
    var j := 1;
    while j <= Years
      invariant 1 <= j <= Years + 1
      invariant |acc| == j - 1
      invariant forall k :: 0 <= k < j - 1 ==> k + 1 in row.years && acc[k] == row.years[k + 1]
      invariant MissingYearFrom(row, 1) == MissingYearFrom(row, j)
    {
      if j !in row.years {
        return Failure(j);
      }
      acc := acc + [row.years[j]];
      j := j + 1;
    }
    assert acc == PayOf(row);
    pay := Success(acc);
  }

  /** reFormatData: the nested loops over rows and over years 1..35. */
  method ReFormatData(rows: seq<Row>) returns (r: Result<Catalog, ReshapeError>)
    ensures r == Reshaped(rows)
  {
    var ret: Catalog := map[];
    var i := 0;
    while i < |rows|
      invariant 0 <= i <= |rows|
      invariant Reshaped(rows[..i]) == Success(ret)
    {
      var row := rows[i];
      var before := ret;
      assert rows[..i + 1][..i] == rows[..i];
      assert rows[..i + 1][i] == row;
      if row.district !in ret {
        ret := ret[row.district := map[]];
      }
      var pay := ReadPay(row);
      if pay.Failure? {
        r := Failure(MissingYear(i, pay.error));
        ReshapedStepFails(rows[..i + 1]);
        FailureStays(rows, i + 1);
        return;
      }
      ret := ret[row.district := ret[row.district][row.position := Job(row.range, pay.value)]];
      InsertInTwoSteps(before, row);
      ReshapedStep(rows[..i + 1]);
      i := i + 1;
    }
    assert rows[..i] == rows;
    r := Success(ret);
  }

  /** Once a prefix of the rows fails, the whole input fails with the same error. */
  lemma {:induction false} FailureStays(rows: seq<Row>, n: int)
    requires 0 <= n <= |rows|
    requires Reshaped(rows[..n]).Failure?
    ensures Reshaped(rows) == Reshaped(rows[..n])
    decreases |rows| - n
  {
    if n < |rows| {
      assert rows[..n + 1][..n] == rows[..n];
      FailureStays(rows, n + 1);
    } else {
      assert rows[..n] == rows;
    }
  }

  /** A successful reshape of a non-empty input is the insertion of its last row into the reshaped prefix. */
  lemma ReshapedUnfold(rows: seq<Row>)
    requires rows != []
    requires Reshaped(rows).Success?
    ensures Reshaped(rows[..|rows| - 1]).Success?
    ensures Complete(rows[|rows| - 1])
    ensures Reshaped(rows).value == Insert(Reshaped(rows[..|rows| - 1]).value, rows[|rows| - 1])
  {
  }

  /** Reshaping succeeds exactly when every row has all 35 year columns. */
  lemma {:induction false} ReshapedSucceeds(rows: seq<Row>)
    ensures Reshaped(rows).Success? <==> forall i :: 0 <= i < |rows| ==> Complete(rows[i])
    decreases |rows|
  {
    if rows != [] {
      var prefix := rows[..|rows| - 1];
      ReshapedSucceeds(prefix);
      assert forall i :: 0 <= i < |prefix| ==> prefix[i] == rows[i];
    }
  }

  /** A failed reshape names the first incomplete row and the first year that row lacks. */
  lemma {:induction false} ReshapedFailure(rows: seq<Row>)
    requires Reshaped(rows).Failure?
    ensures var e := Reshaped(rows).error;
      && 0 <= e.row < |rows|
      && (forall i :: 0 <= i < e.row ==> Complete(rows[i]))
      && MissingYearFrom(rows[e.row], 1) == Some(e.year)
    decreases |rows|
  {
    var prefix := rows[..|rows| - 1];
    assert forall i :: 0 <= i < |prefix| ==> prefix[i] == rows[i];
    if Reshaped(prefix).Failure? {
      ReshapedFailure(prefix);
    } else {
      ReshapedSucceeds(prefix);
    }
  }

  /**
   * A successful reshape has one key per district that occurs in the rows,
   * and each district holds at least one position.
   */
  lemma {:induction false} ReshapedDistricts(rows: seq<Row>, d: string)
    requires Reshaped(rows).Success?
    ensures d in Reshaped(rows).value <==> exists i :: 0 <= i < |rows| && rows[i].district == d
    ensures d in Reshaped(rows).value ==> |Reshaped(rows).value[d]| > 0
    decreases |rows|
  {
    if rows != [] {
      var prefix := rows[..|rows| - 1];
      var last := rows[|rows| - 1];
      ReshapedUnfold(rows);
      ReshapedDistricts(prefix, d);
      if d != last.district && exists i :: 0 <= i < |rows| && rows[i].district == d {
        var i :| 0 <= i < |rows| && rows[i].district == d;
        assert prefix[i] == rows[i];
      }
      if exists i :: 0 <= i < |prefix| && prefix[i].district == d {
        var i :| 0 <= i < |prefix| && prefix[i].district == d;
        assert prefix[i] == rows[i];
      }
    }
  }

  /** Every pay series a successful reshape stores has one figure per year of service. */
  lemma {:induction false} ReshapedWellFormed(rows: seq<Row>)
    requires Reshaped(rows).Success?
    ensures WellFormed(Reshaped(rows).value)
    decreases |rows|
  {
    if rows != [] {
      var prefix := rows[..|rows| - 1];
      ReshapedUnfold(rows);
      ReshapedWellFormed(prefix);
      var c: Catalog := Reshaped(prefix).value;
      var last := rows[|rows| - 1];
      var c': Catalog := Insert(c, last);
      forall d: string, p: string | d in c' && p in c'[d]
        ensures |c'[d][p].pay| == Years
      {
        if d != last.district || p != last.position {
          assert d in c && p in c[d];
        }
      }
    }
  }

  /** The row at index `i` is the last one with this (District, Position) pair. */
  ghost predicate LastWithPair(rows: seq<Row>, i: int, d: string, p: string)
  {
    && 0 <= i < |rows|
    && rows[i].district == d && rows[i].position == p
    && forall j :: i < j < |rows| ==> !(rows[j].district == d && rows[j].position == p)
  }

  /** A (District, Position) pair is stored exactly when some row carries it. */
  lemma {:induction false} ReshapedHasPair(rows: seq<Row>, d: string, p: string)
    requires Reshaped(rows).Success?
    ensures var c := Reshaped(rows).value;
      (d in c && p in c[d]) <==>
        exists i :: 0 <= i < |rows| && rows[i].district == d && rows[i].position == p
    decreases |rows|
  {
    if rows != [] {
      var prefix := rows[..|rows| - 1];
      var last := rows[|rows| - 1];
      ReshapedUnfold(rows);
      ReshapedHasPair(prefix, d, p);
      var c: Catalog := Reshaped(prefix).value;
      var c': Catalog := Reshaped(rows).value;
      if last.district == d && last.position == p {
        assert rows[|rows| - 1] == last;
      } else {
        if d == last.district {
          assert p in c'[d] <==> d in c && p in c[d];
        } else {
          assert d in c' <==> d in c;
        }
        if exists i :: 0 <= i < |rows| && rows[i].district == d && rows[i].position == p {
          var i :| 0 <= i < |rows| && rows[i].district == d && rows[i].position == p;
          assert prefix[i] == rows[i];
        }
        if exists i :: 0 <= i < |prefix| && prefix[i].district == d && prefix[i].position == p {
          var i :| 0 <= i < |prefix| && prefix[i].district == d && prefix[i].position == p;
          assert prefix[i] == rows[i];
        }
      }
    }
  }

  /**
   * Last write wins: the entry stored for a (District, Position) pair holds
   * the Range and Pay of the last row with that pair.
   */
  lemma {:induction false} ReshapedLastWins(rows: seq<Row>, i: int, d: string, p: string)
    requires Reshaped(rows).Success?
    requires LastWithPair(rows, i, d, p)
    ensures var c := Reshaped(rows).value;
      && Complete(rows[i]) && d in c && p in c[d]
      && c[d][p] == Job(rows[i].range, PayOf(rows[i]))
    decreases |rows|
  {
    var prefix := rows[..|rows| - 1];
    var last := rows[|rows| - 1];
    ReshapedUnfold(rows);
    if i < |rows| - 1 {
      assert prefix[i] == rows[i];
      assert LastWithPair(prefix, i, d, p);
      ReshapedLastWins(prefix, i, d, p);
    }
  }
}
