/**
 * The generic record mapper: the part of the `Entity` trait that is the same
 * for every entity kind (src/lib/entities.rs:22-162). An SQLite table is a
 * `Table` object holding its rows in insertion order; every SQL statement the
 * trait issues is the operation on that sequence which the statement denotes.
 * A row is positional: cell `k` belongs to column `columns[k]`.
 */
module Storage {
  import opened Wrappers
  import opened Strings

  /** A stored cell: an SQLite integer or text value. */
  datatype Value = Int(i: int) | Text(s: string)

  type Row = seq<Value>

  /** Everything that stops an operation: an `Err` from the database or a panic. */
  datatype Error =
    | NoSuchTable(table: string)
    | NoSuchColumn(column: string)
    | DuplicateId(id: int)
    | NoRows
    | ColumnIndex(index: nat)
    | ColumnType(index: nat)
    | VersionNotFound(versionId: int)
    | FileNotFound(path: string)
    | InvalidNumber(text: string)

  datatype Result<+T> = Success(value: T) | Failure(error: Error) {
    predicate IsFailure() {
      Failure?
    }

    function PropagateFailure<U>(): Result<U>
      requires Failure?
    {
      Failure(error)
    }

    function Extract(): T
      requires Success?
    {
      value
    }
  }

  /** The result of a statement that returns no value (`Result<()>`). */
  datatype Outcome = Pass | Fail(error: Error)

  /** The comparison of a `WHERE` clause: `=`, or `LIKE '%suffix'`. */
  datatype Operator = Equal | LikeSuffix

  /** `parameter operator value`, as in `DELETE FROM t WHERE {parameter}{operator}{value}`. */
  datatype Condition = Condition(parameter: string, operator: Operator, value: Value)

  /** Position of the first column called `name`. */
  function IndexOf(names: seq<string>, name: string): (r: Option<nat>)
    ensures r.Some? <==> name in names
    ensures r.Some? ==> r.value < |names| && names[r.value] == name && name !in names[..r.value]
  {
    if |names| == 0 then None
    else if names[0] == name then Some(0)
    else
      match IndexOf(names[1..], name)
      case None => None
      case Some(j) =>
        assert names[..j + 1] == [names[0]] + names[1..][..j];
        Some(j + 1)
  }

  predicate Distinct(names: seq<string>)
  {
    forall j, k :: 0 <= j < k < |names| ==> names[j] != names[k]
  }

  /** In a list without repetitions a column's position is the one it is found at. */
  lemma IndexOfDistinct(names: seq<string>, k: nat)
    requires Distinct(names) && k < |names|
    ensures IndexOf(names, names[k]) == Some(k)
  {
    var i := IndexOf(names, names[k]).value;
    assert forall j :: 0 <= j < i ==> names[..i][j] == names[j];
  }

  predicate HasId(row: Row)
  {
    |row| > 0 && row[0].Int?
  }

  /** The id of a row: its first cell, the `id` column of every entity. */
  function IdOf(row: Row): int
    requires HasId(row)
  {
    row[0].i
  }

  /** One cell per column, the first an integer id. */
  predicate Fits(columns: seq<string>, row: Row)
  {
    |row| == |columns| && HasId(row)
  }

  predicate AllFit(columns: seq<string>, rows: seq<Row>)
  {
    forall k :: 0 <= k < |rows| ==> Fits(columns, rows[k])
  }

  /** The ids present in the rows. */
  function Ids(rows: seq<Row>): set<int>
  {
    set k | 0 <= k < |rows| && HasId(rows[k]) :: IdOf(rows[k])
  }

  /** No two rows share an id (the `id PRIMARY KEY` constraint). */
  predicate UniqueIds(rows: seq<Row>)
  {
    forall j, k :: 0 <= j < k < |rows| && HasId(rows[j]) && HasId(rows[k]) ==> IdOf(rows[j]) != IdOf(rows[k])
  }

  /** The cell of `row` in the column called `name`. */
  function Cell(columns: seq<string>, row: Row, name: string): Value
    requires name in columns && |row| == |columns|
  {
    row[IndexOf(columns, name).value]
  }

  /** `parameter operator value` holds of the row; a condition on an unknown column holds of none. */
  predicate Matches(columns: seq<string>, cond: Condition, row: Row)
    ensures Matches(columns, cond, row) ==> cond.parameter in columns
    ensures cond.parameter in columns && |row| == |columns| && cond.operator == Equal ==>
              (Matches(columns, cond, row) <==> Cell(columns, row, cond.parameter) == cond.value)
    ensures cond.parameter in columns && |row| == |columns| && cond.operator == LikeSuffix ==>
              (Matches(columns, cond, row) <==>
                 Cell(columns, row, cond.parameter).Text? && cond.value.Text? &&
                 EndsWith(Cell(columns, row, cond.parameter).s, cond.value.s))
  {
    match IndexOf(columns, cond.parameter)
    case None => false
    case Some(k) =>
      k < |row| &&
      match cond.operator
      case Equal => row[k] == cond.value
      case LikeSuffix => row[k].Text? && cond.value.Text? && EndsWith(row[k].s, cond.value.s)
  }

  /** The rows the condition holds of, in order (`SELECT ... WHERE`). */
  function Where(columns: seq<string>, cond: Condition, rows: seq<Row>): (r: seq<Row>)
    ensures forall row :: row in r <==> row in rows && Matches(columns, cond, row)
    ensures |r| <= |rows|
  {
    if rows == [] then []
    else (if Matches(columns, cond, rows[0]) then [rows[0]] else []) + Where(columns, cond, rows[1..])
  }

  /** The rows the condition does not hold of, in order (what `DELETE ... WHERE` leaves). */
  function Without(columns: seq<string>, cond: Condition, rows: seq<Row>): (r: seq<Row>)
    ensures forall row :: row in r <==> row in rows && !Matches(columns, cond, row)
    ensures |r| <= |rows|
  {
    if rows == [] then []
    else (if Matches(columns, cond, rows[0]) then [] else [rows[0]]) + Without(columns, cond, rows[1..])
  }

  /** Every row goes to exactly one side of a condition. */
  lemma {:induction false} WhereWithoutPartition(columns: seq<string>, cond: Condition, rows: seq<Row>)
    ensures multiset(Where(columns, cond, rows)) + multiset(Without(columns, cond, rows)) == multiset(rows)
  {
    if rows != [] {
      var head, tail := rows[0], rows[1..];
      WhereWithoutPartition(columns, cond, tail);
      assert rows == [head] + tail;
      if Matches(columns, cond, head) {
        assert Where(columns, cond, rows) == [head] + Where(columns, cond, tail);
        assert Without(columns, cond, rows) == Without(columns, cond, tail);
      } else {
        assert Where(columns, cond, rows) == Where(columns, cond, tail);
        assert Without(columns, cond, rows) == [head] + Without(columns, cond, tail);
      }
    }
  }

  /** Removing rows keeps the survivors in their order: it distributes over concatenation. */
  lemma {:induction false} WithoutAppend(columns: seq<string>, cond: Condition, a: seq<Row>, b: seq<Row>)
    ensures Without(columns, cond, a + b) == Without(columns, cond, a) + Without(columns, cond, b)
  {
    if a != [] {
      assert (a + b)[0] == a[0];
      assert (a + b)[1..] == a[1..] + b;
      WithoutAppend(columns, cond, a[1..], b);
    } else {
      assert a + b == b;
    }
  }

  /** When nothing matches, nothing is removed. */
  lemma {:induction false} WithoutNothing(columns: seq<string>, cond: Condition, rows: seq<Row>)
    requires forall k :: 0 <= k < |rows| ==> !Matches(columns, cond, rows[k])
    ensures Without(columns, cond, rows) == rows
  {
    if rows != [] {
      WithoutNothing(columns, cond, rows[1..]);
      assert rows == [rows[0]] + rows[1..];
    }
  }

  lemma {:induction false} WithoutKeepsValid(columns: seq<string>, cond: Condition, rows: seq<Row>)
    requires AllFit(columns, rows) && UniqueIds(rows)
    ensures AllFit(columns, Without(columns, cond, rows)) && UniqueIds(Without(columns, cond, rows))
  {
    if rows != [] {
      var rest := Without(columns, cond, rows[1..]);
      WithoutKeepsValid(columns, cond, rows[1..]);
      if !Matches(columns, cond, rows[0]) {
        var r := [rows[0]] + rest;
        forall k | 0 < k < |r|
          ensures HasId(r[k]) && IdOf(r[k]) != IdOf(rows[0])
        {
          assert r[k] in rows[1..];
          var j :| 0 <= j < |rows[1..]| && rows[1..][j] == r[k];
          assert rows[j + 1] == r[k];
        }
      }
    }
  }

  /** `SET column = value` on every row with the given id. */
  function SetColumn(rows: seq<Row>, id: int, index: nat, value: Value): (r: seq<Row>)
    requires forall k :: 0 <= k < |rows| ==> HasId(rows[k]) && index < |rows[k]|
    ensures |r| == |rows|
    ensures forall k :: 0 <= k < |rows| ==> r[k] == if IdOf(rows[k]) == id then rows[k][index := value] else rows[k]
  {
    if rows == [] then []
    else [if IdOf(rows[0]) == id then rows[0][index := value] else rows[0]] + SetColumn(rows[1..], id, index, value)
  }

  /** The builder accepts every row. */
  predicate AllBuild<T>(rows: seq<Row>, build: Row -> Result<T>)
  {
    forall k :: 0 <= k < |rows| ==> build(rows[k]).Success?
  }

  /** Builds every row, failing with the first row the builder rejects (`.map(|e| e.unwrap())`). */
  function BuildAll<T>(rows: seq<Row>, build: Row -> Result<T>): (r: Result<seq<T>>)
    ensures r.Success? <==> forall k :: 0 <= k < |rows| ==> build(rows[k]).Success?
    ensures r.Success? <==> AllBuild(rows, build)
    ensures r.Success? ==> |r.value| == |rows| && forall k :: 0 <= k < |rows| ==> build(rows[k]) == Success(r.value[k])
    ensures r.Failure? ==> exists k :: 0 <= k < |rows| && build(rows[k]) == Failure(r.error)
  {
    if rows == [] then Success([])
    else
      match build(rows[0])
      case Failure(e) => Failure(e)
      case Success(x) =>
        match BuildAll(rows[1..], build)
        case Failure(e) => Failure(e)
        case Success(xs) => Success([x] + xs)
  }

  /** Every name of the query is a column. */
  predicate Known(columns: seq<string>, query: seq<string>)
  {
    forall j :: 0 <= j < |query| ==> query[j] in columns
  }

  /** The first name of the query that is not a column. */
  function Unknown(columns: seq<string>, query: seq<string>): (r: Option<string>)
    ensures r.None? <==> Known(columns, query)
    ensures r.Some? ==> r.value in query && r.value !in columns
  {
    if query == [] then None
    else if query[0] !in columns then Some(query[0])
    else Unknown(columns, query[1..])
  }

  /** The cells of `row` named by the query, in query order (`SELECT {query} FROM t`). */
  function Project(columns: seq<string>, query: seq<string>, row: Row): (r: Row)
    requires Known(columns, query) && |row| == |columns|
    ensures |r| == |query| && forall j :: 0 <= j < |query| ==> r[j] == Cell(columns, row, query[j])
  {
    seq(|query|, j requires 0 <= j < |query| => row[IndexOf(columns, query[j]).value])
  }

  function ProjectRows(columns: seq<string>, query: seq<string>, rows: seq<Row>): (r: seq<Row>)
    requires Known(columns, query) && forall k :: 0 <= k < |rows| ==> |rows[k]| == |columns|
    ensures |r| == |rows| && forall k :: 0 <= k < |rows| ==> r[k] == Project(columns, query, rows[k])
  {
    seq(|rows|, k requires 0 <= k < |rows| => Project(columns, query, rows[k]))
  }

  /** Selecting all columns of a table, in their own order, gives the row back. */
  lemma ProjectAll(columns: seq<string>, row: Row)
    requires Distinct(columns) && |row| == |columns|
    ensures Known(columns, columns) && Project(columns, columns, row) == row
  {
    forall j | 0 <= j < |columns|
      ensures IndexOf(columns, columns[j]) == Some(j)
    {
      IndexOfDistinct(columns, j);
    }
  }

  /** One SQLite table of the store. */
  class Table {
    const name: string
    const columns: seq<string>
    var created: bool
    var rows: seq<Row>

    ghost predicate Valid()
      reads this
    {
      && |columns| > 0 && columns[0] == "id" && Distinct(columns)
      && (!created ==> rows == [])
      && AllFit(columns, rows)
      && UniqueIds(rows)
    }

    /** A store in which this table has not been created yet. */
    constructor (name: string, columns: seq<string>)
      requires |columns| > 0 && columns[0] == "id" && Distinct(columns)
      ensures Valid() && this.name == name && this.columns == columns
      ensures !created && rows == []
    {
      this.name := name;
      this.columns := columns;
      created := false;
      rows := [];
    }

    /** `table`: `CREATE TABLE IF NOT EXISTS`, so a second call changes nothing. */
    method EnsureTable()
      requires Valid()
      modifies this
      ensures Valid() && created && rows == old(rows)
    {
      created := true;
    }

    /** `next_id`: the highest id plus one, or 1 for an empty table. */
    function NextId(): (r: Result<int>)
      reads this
      requires Valid()
      ensures r.Success? <==> created
      ensures !created ==> r == Failure(NoSuchTable(name))
      ensures r.Success? ==> forall id :: id in Ids(rows) ==> id < r.value
      ensures r.Success? && rows == [] ==> r.value == 1
      ensures r.Success? && rows != [] ==> r.value - 1 in Ids(rows)
    {
      if !created then Failure(NoSuchTable(name))
      else if rows == [] then Success(1)
      else Success(MaxId(rows) + 1)
    }

    /** `create`: `INSERT`, refused when the id is taken. */
    method Create(row: Row) returns (r: Outcome)
      requires Valid() && Fits(columns, row)
      modifies this
      ensures Valid() && created == old(created)
      ensures !old(created) ==> r == Fail(NoSuchTable(name))
      ensures old(created) ==> (r.Pass? <==> IdOf(row) !in Ids(old(rows)))
      ensures r.Fail? ==> rows == old(rows)
      ensures r.Pass? ==> rows == old(rows) + [row]
    {
      if !created {
        return Fail(NoSuchTable(name));
      }
      if IdOf(row) in Ids(rows) {
        return Fail(DuplicateId(IdOf(row)));
      }
      rows := rows + [row];
      r := Pass;
    }

    /** `delete`: removes exactly the rows the condition holds of; matching nothing is not an error. */
    method Delete(cond: Condition) returns (r: Outcome)
      requires Valid()
      modifies this
      ensures Valid() && created == old(created)
      ensures !old(created) ==> r == Fail(NoSuchTable(name))
      ensures old(created) && cond.parameter !in columns ==> r == Fail(NoSuchColumn(cond.parameter))
      ensures r.Pass? <==> old(created) && cond.parameter in columns
      ensures r.Fail? ==> rows == old(rows)
      ensures r.Pass? ==> rows == Without(columns, cond, old(rows))
    {
      if !created {
        return Fail(NoSuchTable(name));
      }
      if cond.parameter !in columns {
        return Fail(NoSuchColumn(cond.parameter));
      }
      WithoutKeepsValid(columns, cond, rows);
      rows := Without(columns, cond, rows);
      r := Pass;
    }

    /** `update`: sets one column of the row with the given id; an absent id changes nothing. */
    method Update(id: int, column: string, value: Value) returns (r: Outcome)
      requires Valid() && column != "id"
      modifies this
      ensures Valid() && created == old(created)
      ensures !old(created) ==> r == Fail(NoSuchTable(name))
      ensures old(created) && column !in columns ==> r == Fail(NoSuchColumn(column))
      ensures r.Pass? <==> old(created) && column in columns
      ensures r.Fail? ==> rows == old(rows)
      ensures r.Pass? ==> rows == SetColumn(old(rows), id, IndexOf(columns, column).value, value)
      ensures id !in Ids(old(rows)) ==> rows == old(rows)
    {
      if !created {
        return Fail(NoSuchTable(name));
      }
      if column !in columns {
        return Fail(NoSuchColumn(column));
      }
      var index := IndexOf(columns, column).value;
      var updated := SetColumn(rows, id, index, value);
      forall j, k | 0 <= j < k < |updated|
        ensures IdOf(updated[j]) != IdOf(updated[k])
      {
        assert IdOf(updated[j]) == IdOf(rows[j]) && IdOf(updated[k]) == IdOf(rows[k]);
      }
      if id !in Ids(rows) {
        assert forall k :: 0 <= k < |rows| ==> IdOf(rows[k]) in Ids(rows);
        assert updated == rows;
      }
      rows := updated;
      r := Pass;
    }

    /** `select`: the named columns of every row, each built into an entity. */
    function Select<T>(query: seq<string>, build: Row -> Result<T>): (r: Result<seq<T>>)
      reads this
      requires Valid()
      ensures !created ==> r == Failure(NoSuchTable(name))
      ensures created && Unknown(columns, query).Some? ==> r == Failure(NoSuchColumn(Unknown(columns, query).value))
      ensures r.Success? <==> (created && Known(columns, query) &&
                               forall k :: 0 <= k < |rows| ==> build(Project(columns, query, rows[k])).Success?)
      ensures r.Success? ==> (|r.value| == |rows| &&
                              forall k :: 0 <= k < |rows| ==> build(Project(columns, query, rows[k])) == Success(r.value[k]))
    {
      if !created then Failure(NoSuchTable(name))
      else if Unknown(columns, query).Some? then Failure(NoSuchColumn(Unknown(columns, query).value))
      else BuildAll(ProjectRows(columns, query, rows), build)
    }

    /** `all`: every row, all columns, each built into an entity. */
    function All<T>(build: Row -> Result<T>): (r: Result<seq<T>>)
      reads this
      requires Valid()
      ensures !created ==> r == Failure(NoSuchTable(name))
      ensures r.Success? <==> created && forall k :: 0 <= k < |rows| ==> build(rows[k]).Success?
      ensures r.Success? ==> |r.value| == |rows| && forall k :: 0 <= k < |rows| ==> build(rows[k]) == Success(r.value[k])
    {
      forall k | 0 <= k < |rows|
        ensures Known(columns, columns) && Project(columns, columns, rows[k]) == rows[k]
      {
        ProjectAll(columns, rows[k]);
      }
      assert Known(columns, columns) by {
        forall j | 0 <= j < |columns| ensures columns[j] in columns { }
      }
      Select(columns, build)
    }

    /** `select_where`: all columns of the rows the condition holds of, in order. */
    function SelectWhere<T>(cond: Condition, build: Row -> Result<T>): (r: Result<seq<T>>)
      reads this
      requires Valid()
      ensures !created ==> r == Failure(NoSuchTable(name))
      ensures created && cond.parameter !in columns ==> r == Failure(NoSuchColumn(cond.parameter))
      ensures r.Success? <==> created && cond.parameter in columns && AllBuild(Where(columns, cond, rows), build)
      ensures r.Success? ==> (created && |r.value| == |Where(columns, cond, rows)| &&
                              forall k :: 0 <= k < |r.value| ==> build(Where(columns, cond, rows)[k]) == Success(r.value[k]))
    {
      if !created then Failure(NoSuchTable(name))
      else if cond.parameter !in columns then Failure(NoSuchColumn(cond.parameter))
      else
        BuildAll(Where(columns, cond, rows), build)
    }

    /** `find`: the row with the given id, or `NoRows` when there is none. */
    function Find<T>(id: int, build: Row -> Result<T>): (r: Result<T>)
      reads this
      requires Valid()
      ensures !created ==> r == Failure(NoSuchTable(name))
      ensures created && id !in Ids(rows) ==> r == Failure(NoRows)
      ensures forall k :: 0 <= k < |rows| && IdOf(rows[k]) == id ==> r == build(rows[k])
    {
      if !created then Failure(NoSuchTable(name))
      else
        var hits := Where(columns, Condition("id", Equal, Int(id)), rows);
        assert IndexOf(columns, "id") == Some(0);
        if hits == [] then
          assert forall k :: 0 <= k < |rows| && IdOf(rows[k]) == id ==> rows[k] in hits;
          Failure(NoRows)
        else
          assert hits[0] in rows;
          assert id in Ids(rows);
          build(hits[0])
    }
  }

  /** The highest id among the rows. */
  function MaxId(rows: seq<Row>): (m: int)
    requires |rows| > 0 && forall k :: 0 <= k < |rows| ==> HasId(rows[k])
    ensures m in Ids(rows)
    ensures forall id :: id in Ids(rows) ==> id <= m
  {
    if |rows| == 1 then
      IdOf(rows[0])
    else
      var rest := MaxId(rows[1..]);
      assert forall k :: 1 <= k < |rows| ==> rows[k] == rows[1..][k - 1];
      assert forall id :: id in Ids(rows) ==> id == IdOf(rows[0]) || id in Ids(rows[1..]);
      if IdOf(rows[0]) >= rest then IdOf(rows[0]) else rest
  }
}
