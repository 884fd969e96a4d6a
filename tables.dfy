/** The data model (CRT.cpp:13-31): columns, rows, tables and the store
    that maps a table name to its table, with the invariants the commands
    keep. */
module Tables {
  import opened Strings
  import opened Validator

  /** A C++ `int`. */
  newtype int32 = x: int | -0x8000_0000 <= x < 0x8000_0000

  const INT32_MAX: int32 := 0x7FFF_FFFF

  /** `next_id++` on a 32-bit int: one more, except that the largest value
      wraps to the smallest (signed overflow is undefined in C++; the model
      takes the two's-complement result). */
  function Increment(x: int32): (y: int32)
    ensures x < INT32_MAX ==> y as int == x as int + 1
    ensures x == INT32_MAX ==> y as int == -0x8000_0000
  {
    if x == INT32_MAX then -0x8000_0000 else x + 1
  }

  /** struct Column: a name and a declared type ("INT" or "TEXT" when made by
      CREATE; whatever a snapshot holds after LOAD). */
  datatype Column = Column(name: Str, typ: Str)

  /** struct Row: the values, one per column, and the row's id. */
  datatype Row = Row(values: seq<Str>, id: int32)

  /** struct Table */
  datatype Table = Table(name: Str, columns: seq<Column>, rows: seq<Row>, nextId: int32)

  /** The global `database` map. */
  type Store = map<Str, Table>

  /** A row has one value per column and each value passes its column's type. */
  predicate RowFits(r: Row, columns: seq<Column>) {
    |r.values| == |columns| &&
    forall i :: 0 <= i < |columns| ==> ValidateDataType(r.values[i], columns[i].typ)
  }

  /** Every row of the table fits its columns. */
  predicate WellFormed(t: Table) {
    forall r :: r in t.rows ==> RowFits(r, t.columns)
  }

  predicate AllWellFormed(s: Store) {
    forall k :: k in s ==> WellFormed(s[k])
  }

  /** Ids strictly increase along the rows, so rows with distinct ids keep
      their order exactly when their ids keep it. */
  predicate AscendingIds(rows: seq<Row>) {
    forall i, j :: 0 <= i < j < |rows| ==> rows[i].id < rows[j].id
  }

  /** Ids ascend and stay below the counter, so the counter never hands out
      an id a row already has. */
  predicate IdsAscending(t: Table) {
    AscendingIds(t.rows) && forall r :: r in t.rows ==> r.id < t.nextId
  }

  predicate AllIdsAscending(s: Store) {
    forall k :: k in s ==> IdsAscending(s[k])
  }

  /** Each table is stored under its own name. */
  predicate KeysMatchNames(s: Store) {
    forall k :: k in s ==> s[k].name == k
  }

  /** What CREATE, INSERT, UPDATE and DELETE keep: each table under its own
      name, every row fitting its columns, ids ascending below the
      counter. */
  predicate Consistent(s: Store) {
    KeysMatchNames(s) && AllWellFormed(s) && AllIdsAscending(s)
  }
}
