/**
 * The dish catalogue: one table of a lunch database, holding rows
 * (dish name, course). The SQL storage is abstracted to an in-memory
 * sequence of rows in table order.
 */
module Dishes {

  /** One row of a dish table: the dish's name and its course (1 or 2). */
  datatype Dish = Dish(name: string, course: int)

  /** The name column of a list of rows, in row order. */
  function Names(rows: seq<Dish>): (r: seq<string>)
    ensures |r| == |rows|
    ensures forall k :: 0 <= k < |rows| ==> r[k] == rows[k].name
  {
    seq(|rows|, k requires 0 <= k < |rows| => rows[k].name)
  }

  /** The courses the catalogue accepts. */
  predicate ValidCourse(course: int) {
    course == 1 || course == 2
  }

  /** No dish name occurs in two rows. */
  predicate DistinctNames(rows: seq<Dish>) {
    forall i, j :: 0 <= i < j < |rows| ==> rows[i].name != rows[j].name
  }

  /** Every row carries course 1 or 2. */
  predicate ValidCourses(rows: seq<Dish>) {
    forall k :: 0 <= k < |rows| ==> ValidCourse(rows[k].course)
  }

  /** The rows after an insertion of (name, course). */
  function InsertRow(rows: seq<Dish>, name: string, course: int): (r: seq<Dish>)
    // earlier rows are kept as they are, and at most one row is added
    ensures |rows| <= |r| <= |rows| + 1 && r[..|rows|] == rows
    // the row is added exactly when the name is new and the course is 1 or 2
    ensures |r| == |rows| + 1 <==> name !in Names(rows) && ValidCourse(course)
    ensures |r| == |rows| + 1 ==> r[|rows|] == Dish(name, course)
    // so a catalogue built by insertions never holds a name twice
    ensures DistinctNames(rows) ==> DistinctNames(r)
    ensures ValidCourses(rows) ==> ValidCourses(r)
  {
    if name !in Names(rows) && ValidCourse(course) then rows + [Dish(name, course)] else rows
  }

  /** The rows after every row named `name` is deleted. */
  function DeleteRows(rows: seq<Dish>, name: string): (r: seq<Dish>)
    // exactly the rows with another name survive
    ensures forall d {:trigger d in r} {:trigger d in rows} :: d in r <==> d in rows && d.name != name
    ensures name !in Names(r)
    // something is removed exactly when the name was present
    ensures |r| <= |rows|
    ensures |r| < |rows| <==> name in Names(rows)
  {
    if rows == [] then []
    else
      var rest := DeleteRows(rows[1..], name);
      assert Names(rows) == [rows[0].name] + Names(rows[1..]);
      if rows[0].name == name then rest
      else
        assert Names([rows[0]] + rest) == [rows[0].name] + Names(rest);
        [rows[0]] + rest
  }

  /** Deletion keeps the catalogue rules: distinct names and courses 1 or 2. */
  lemma {:induction false} DeleteKeepsRules(rows: seq<Dish>, name: string)
    ensures DistinctNames(rows) ==> DistinctNames(DeleteRows(rows, name))
    ensures ValidCourses(rows) ==> ValidCourses(DeleteRows(rows, name))
  {
    if rows != [] {
      DeleteKeepsRules(rows[1..], name);
      var rest := DeleteRows(rows[1..], name);
      if rows[0].name != name {
        assert DeleteRows(rows, name) == [rows[0]] + rest;
        if DistinctNames(rows) {
          forall k | 0 <= k < |rest| ensures rest[k].name != rows[0].name {
            assert rest[k] in rows[1..];
          }
        }
      }
    }
  }

  /** Deleting a name that is not in the table leaves the table as it is. */
  lemma {:induction false} DeleteAbsent(rows: seq<Dish>, name: string)
    requires name !in Names(rows)
    ensures DeleteRows(rows, name) == rows
  {
    if rows != [] {
      assert Names(rows) == [rows[0].name] + Names(rows[1..]);
      DeleteAbsent(rows[1..], name);
    }
  }

  /** Deleting works row by row: the surviving rows keep their relative order. */
  lemma {:induction false} DeleteConcat(a: seq<Dish>, b: seq<Dish>, name: string)
    ensures DeleteRows(a + b, name) == DeleteRows(a, name) + DeleteRows(b, name)
  {
    if a != [] {
      assert (a + b)[1..] == a[1..] + b;
      DeleteConcat(a[1..], b, name);
    } else {
      assert a + b == b;
    }
  }

  /** Inserting a new dish and then deleting it restores the table. */
  lemma InsertThenDelete(rows: seq<Dish>, name: string, course: int)
    requires name !in Names(rows)
    ensures DeleteRows(InsertRow(rows, name, course), name) == rows
  {
    if ValidCourse(course) {
      DeleteConcat(rows, [Dish(name, course)], name);
      DeleteAbsent(rows, name);
      assert DeleteRows([Dish(name, course)], name) == [];
    } else {
      DeleteAbsent(rows, name);
    }
  }

  /**
   * A dish table. `rows` is the content of the SQL table, in row order;
   * the database connection is not modelled.
   */
  class Table {
    const tableName: string
    var rows: seq<Dish>

    /** What the insertion rules keep true of a table filled through Insert. */
    ghost predicate Valid()
      reads this
    {
      DistinctNames(rows) && ValidCourses(rows)
    }

    /** Attaches to the table `tableName`, whose stored rows are `stored`. */
    constructor (tableName: string, stored: seq<Dish>)
      ensures this.tableName == tableName && rows == stored
    {
      this.tableName := tableName;
      rows := stored;
    }

    /** Adds (name, course) unless the name is already present or the course is not 1 or 2. */
    method Insert(name: string, course: int)
      modifies this
      ensures rows == InsertRow(old(rows), name, course)
      ensures old(Valid()) ==> Valid()
    {
      var dishesInserted := Names(rows);
      if name !in dishesInserted && (course == 1 || course == 2) {
        rows := rows + [Dish(name, course)];
      }
    }

    /** Removes every row whose name is `name`. */
    method Delete(name: string)
      modifies this
      ensures rows == DeleteRows(old(rows), name)
      ensures old(Valid()) ==> Valid()
    {
      DeleteKeepsRules(rows, name);
      rows := DeleteRows(rows, name);
    }

    /** The stored rows, in table order. */
    method ListDishes() returns (listOfDishes: seq<Dish>)
      ensures listOfDishes == rows
      ensures Valid() ==> DistinctNames(listOfDishes)
    {
      listOfDishes := rows;
    }
  }
}
