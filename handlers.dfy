/** The handlers as the statements that change the store: each one works
    on the store step by step, as the original does on the global table
    map, and is proved to do what its function in `Commands` describes. */
module Handlers {
  import opened Wrappers
  import opened Strings
  import opened Validator
  import opened Tables
  import opened Condition
  import opened Codec
  import opened Commands

  /** The column-definition loop of handleCreate (CRT.cpp:156-177): the
      columns in order, or the first bad definition's error. */
  method ReadColumnDefs(fields: seq<Str>) returns (res: Result<seq<Column>, Error>)
    ensures res == ParseColumnDefs(fields)
  {
    var columns: seq<Column> := [];
    for i := 0 to |fields|
      invariant ParseEach(fields[..i], ParseColumnDef).Ok?
      invariant columns == Present(ParseEach(fields[..i], ParseColumnDef).value)
    {
      assert fields[..i + 1][..i] == fields[..i];
      var def := ParseColumnDef(fields[i]);
      if def.Err? {
        ParseEachFirstError(fields, ParseColumnDef, i + 1);
        return Err(def.error);
      }
      if def.value.Some? {
        columns := columns + [def.value.value];
      }
    }
    assert fields[..|fields|] == fields;
    return Ok(columns);
  }

  /** The value loop of handleInsert (CRT.cpp:222-235): each item between
      commas, trimmed and unquoted. */
  method ReadValues(rest: Str) returns (values: seq<Str>)
    ensures values == InsertValues(rest)
  {
    values := CleanFields(ParenFields(rest));
  }

  /** Each field trimmed and unquoted, in order (CRT.cpp:226-235). */
  method CleanFields(fields: seq<Str>) returns (values: seq<Str>)
    ensures |values| == |fields|
    ensures forall j :: 0 <= j < |fields| ==> values[j] == CleanValue(fields[j])
  {
    values := [];
    for i := 0 to |fields|
      invariant |values| == i
      invariant forall j :: 0 <= j < i ==> values[j] == CleanValue(fields[j])
    {
      values := values + [CleanValue(fields[i])];
    }
  }

  /** The checks of handleInsert (CRT.cpp:237-252): the count, then each
      value against its column's type in turn, copying the values that
      pass into the new row. */
  method BuildRow(t: Table, values: seq<Str>) returns (row: Result<Row, Error>)
    ensures row == InsertRow(t, values)
  {
    if |values| != |t.columns| {
      return Err(ValueCountMismatch(|t.columns|, |values|));
    }
    var copied: seq<Str> := [];
    for i := 0 to |values|
      invariant copied == values[..i]
      invariant forall j :: 0 <= j < i ==> ValidateDataType(values[j], t.columns[j].typ)
    {
      if !ValidateDataType(values[i], t.columns[i].typ) {
        return Err(InvalidValue(values[i], t.columns[i].name));
      }
      copied := copied + [values[i]];
    }
    assert copied == values;
    return Ok(Row(copied, t.nextId));
  }

  /** The display loop of handleSelect (CRT.cpp:303-312): the rows the
      condition holds for, in table order. */
  method SelectRows(rows: seq<Row>, columns: seq<Column>, condition: Str) returns (shown: seq<Row>)
    ensures shown == Matching(rows, columns, condition)
  {
    shown := [];
    for i := 0 to |rows|
      invariant shown == Matching(rows[..i], columns, condition)
    {
      assert rows[..i + 1][..i] == rows[..i];
      var hit := EvaluateCondition(rows[i], columns, condition);
      if hit {
        shown := shown + [rows[i]];
      }
    }
    assert rows[..|rows|] == rows;
  }

  /** std::remove_if with the condition (CRT.cpp:350-354): the rows the
      condition rejects, in their order. */
  method KeepRows(rows: seq<Row>, columns: seq<Column>, condition: Str) returns (kept: seq<Row>)
    ensures kept == NonMatching(rows, columns, condition)
  {
    kept := [];
    for i := 0 to |rows|
      invariant kept == NonMatching(rows[..i], columns, condition)
    {
      assert rows[..i + 1][..i] == rows[..i];
      var hit := EvaluateCondition(rows[i], columns, condition);
      if !hit {
        kept := kept + [rows[i]];
      }
    }
    assert rows[..|rows|] == rows;
  }

  /** The SET-list loop of handleUpdate (CRT.cpp:400-439): the checked
      assignments in order, or the first bad item's error. */
  method ReadAssignments(fields: seq<Str>, columns: seq<Column>) returns (res: Result<seq<Assignment>, Error>)
    ensures res == ParseAssignments(fields, columns)
  {
    var updates: seq<Assignment> := [];
    for i := 0 to |fields|
      invariant ParseEach(fields[..i], AssignmentParser(columns)) == Ok(updates)
    {
      assert fields[..i + 1][..i] == fields[..i];
      var u := ParseAssignment(fields[i], columns);
      assert AssignmentParser(columns)(fields[..i + 1][i]) == u;
      if u.Err? {
        ParseEachFirstError(fields, AssignmentParser(columns), i + 1);
        return Err(u.error);
      }
      updates := updates + [u.value];
    }
    assert fields[..|fields|] == fields;
    return Ok(updates);
  }

  /** The assignment loop (CRT.cpp:450-452) on one row's values. */
  method Assign(values: seq<Str>, updates: seq<Assignment>) returns (result: seq<Str>)
    ensures result == ApplyAssignments(values, updates)
  {
    result := values;
    for k := 0 to |updates|
      invariant result == ApplyAssignments(values, updates[..k])
    {
      assert updates[..k + 1][..k] == updates[..k];
      var u := updates[k];
      if u.column < |result| {
        result := result[u.column := u.value];
      }
    }
    assert updates[..|updates|] == updates;
  }

  /** The row loop of handleUpdate (CRT.cpp:447-455): every row the
      condition holds for is rewritten where it stands and counted. */
  method UpdateMatching(rows: seq<Row>, columns: seq<Column>, condition: Str, updates: seq<Assignment>)
    returns (result: seq<Row>, count: nat)
    ensures result == UpdateRows(rows, columns, condition, updates)
    ensures count == |Matching(rows, columns, condition)|
  {
    result := rows;
    count := 0;
    for i := 0 to |rows|
      invariant |result| == |rows|
      invariant forall j :: 0 <= j < i ==> result[j] == UpdateRow(rows[j], columns, condition, updates)
      invariant forall j :: i <= j < |rows| ==> result[j] == rows[j]
      invariant count == |Matching(rows[..i], columns, condition)|
    {
      assert rows[..i + 1][..i] == rows[..i];
      var hit := EvaluateCondition(result[i], columns, condition);
      if hit {
        var values := Assign(result[i].values, updates);
        result := result[i := result[i].(values := values)];
        count := count + 1;
      }
    }
    assert rows[..|rows|] == rows;
  }

  /** The order `for (const auto& tablePair : database)` (CRT.cpp:492)
      visits the keys in: each key once, in an order the unordered map
      chooses and the model leaves open. */
  method WalkOrder(s: Store) returns (keys: seq<Str>)
    ensures Walk(keys, s)
  {
    keys := [];
    var remaining := s.Keys;
    while remaining != {}
      invariant remaining <= s.Keys
      invariant |keys| + |remaining| == |s|
      invariant forall k :: k in s ==> (k in keys <==> k !in remaining)
      invariant forall k :: k in keys ==> k in s
      invariant forall i, j :: 0 <= i < j < |keys| ==> keys[i] != keys[j]
      decreases |remaining|
    {
      var k :| k in remaining;
      keys := keys + [k];
      remaining := remaining - {k};
    }
  }

  /** The table loop of handleSave (CRT.cpp:492-537): each table in the
      order of the walk, one after the other. */
  method WriteTables(s: Store, keys: seq<Str>) returns (bytes: seq<byte>)
    requires forall k :: k in keys ==> k in s
    ensures bytes == EncodeList(TablesOf(s, keys), EncodeTable)
  {
    ghost var order := TablesOf(s, keys);
    bytes := [];
    for i := 0 to |keys|
      invariant bytes == EncodeList(order[..i], EncodeTable)
    {
      assert order[..i + 1] == order[..i] + [s[keys[i]]];
      EncodeListAppend(order[..i], s[keys[i]], EncodeTable);
      bytes := bytes + EncodeTable(s[keys[i]]);
    }
    assert order[..|keys|] == order;
  }

  /** What handleSave writes (CRT.cpp:487-537): the table count, then the
      tables in the order of a walk over the map. Read back, it gives the
      store. */
  method WriteSnapshot(s: Store) returns (bytes: seq<byte>, ghost keys: seq<Str>)
    ensures Walk(keys, s)
    ensures bytes == EncodeSnapshot(TablesOf(s, keys))
    ensures KeysMatchNames(s) && EncodableStore(s) ==> DecodeSnapshot(bytes) == Some((s, |s|))
  {
    var walk := WalkOrder(s);
    keys := walk;
    var body := WriteTables(s, walk);
    bytes := EncodeSize(|s|) + body;
    if KeysMatchNames(s) && EncodableStore(s) {
      var order := TablesOf(s, keys);
      forall i | 0 <= i < |order|
        ensures EncodableTable(order[i])
      {
        assert keys[i] in s;
      }
      SnapshotRoundTrip(order, []);
      LoadWalk(keys, s);
      assert bytes + [] == bytes;
    }
  }

  /** handleCreate (CRT.cpp:119-189). */
  method Create(s: Store, command: Str) returns (r: Response, s': Store)
    ensures (r, s') == CreateCommand(s, command)
  {
    s' := s;
    var h := CreateHeader(command);
    if h.name == [] {
      return Failed(TableNameRequired), s';
    }
    if h.name in s' {
      return Failed(TableExists(h.name)), s';
    }
    if !HasParens(h.rest) {
      return Failed(MissingParentheses), s';
    }
    var columns := ReadColumnDefs(ParenFields(h.rest));
    if columns.Err? {
      return Failed(columns.error), s';
    }
    if columns.value == [] {
      return Failed(NoColumns), s';
    }
    s' := s'[h.name := Table(h.name, columns.value, [], 1)];
    return Created(h.name), s';
  }

  /** handleInsert (CRT.cpp:192-259): `next_id++` happens before the values
      are read and checked. */
  method Insert(s: Store, command: Str) returns (r: Response, s': Store)
    ensures (r, s') == InsertCommand(s, command)
  {
    s' := s;
    var h := InsertHeader(command);
    if h.name !in s' {
      return Failed(TableNotFound(h.name)), s';
    }
    if !HasParens(h.rest) {
      return Failed(MissingParentheses), s';
    }
    var t := s'[h.name];
    s' := s'[h.name := t.(nextId := Increment(t.nextId))];
    var values := ReadValues(h.rest);
    var row := BuildRow(t, values);
    if row.Err? {
      return Failed(row.error), s';
    }
    s' := s[h.name := t.(nextId := Increment(t.nextId), rows := t.rows + [row.value])];
    return Inserted(h.name, t.nextId), s';
  }

  /** handleSelect (CRT.cpp:262-318): the rows shown, in table order. */
  method Select(s: Store, command: Str) returns (r: Response)
    ensures r == SelectCommand(s, command)
  {
    var h := SelectHeader(command);
    if h.name !in s {
      return Failed(TableNotFound(h.name));
    }
    var t := s[h.name];
    if t.rows == [] {
      return TableIsEmpty(h.name);
    }
    var shown := SelectRows(t.rows, t.columns, h.rest);
    return Selected(h.name, shown);
  }

  /** handleDelete (CRT.cpp:321-361): `rows.clear()` without a condition,
      otherwise remove_if and erase, which keep the other rows in order. */
  method Delete(s: Store, command: Str) returns (r: Response, s': Store)
    ensures (r, s') == DeleteCommand(s, command)
  {
    r, s' := DeleteRows(s, DeleteHeader(command));
  }

  /** handleDelete once the name and the condition are read
      (CRT.cpp:336-360). */
  method DeleteRows(s: Store, h: Header) returns (r: Response, s': Store)
    ensures (r, s') == ApplyDelete(s, h)
  {
    s' := s;
    if h.name !in s' {
      return Failed(TableNotFound(h.name)), s';
    }
    var t := s'[h.name];
    if h.rest == [] {
      s' := s'[h.name := t.(rows := [])];
      return Deleted(h.name, |t.rows|), s';
    }
    var kept := KeepRows(t.rows, t.columns, h.rest);
    s' := s'[h.name := t.(rows := kept)];
    return Deleted(h.name, |t.rows| - |kept|), s';
  }

  /** handleUpdate (CRT.cpp:364-461): the SET list is checked in full,
      then each matching row is rewritten in place. */
  method Update(s: Store, command: Str) returns (r: Response, s': Store)
    ensures (r, s') == UpdateCommand(s, command)
  {
    s' := s;
    var h := UpdateHeader(command);
    if h.name !in s' {
      return Failed(TableNotFound(h.name)), s';
    }
    var t := s'[h.name];
    var updates := ReadAssignments(SplitComma(h.setClause), t.columns);
    if updates.Err? {
      return Failed(updates.error), s';
    }
    if updates.value == [] {
      return Failed(NoUpdates), s';
    }
    var rows, count := UpdateMatching(t.rows, t.columns, h.condition, updates.value);
    s' := s'[h.name := t.(rows := rows)];
    return Updated(h.name, count), s';
  }

  /** handleSave (CRT.cpp:464-541): the file to write and its bytes, the
      table count then every table in the unspecified order the map is
      walked in; `canWrite` says whether the file can be created. What is
      written reads back as the store. */
  method Save(s: Store, command: Str, canWrite: bool)
    returns (r: Response, written: Option<(Str, seq<byte>)>, ghost keys: seq<Str>)
    ensures FileArgument(command).None? ==> r == Failed(FilenameRequired) && written.None?
    ensures FileArgument(command).Some? && !canWrite ==>
              r == Failed(CannotWrite(FileArgument(command).value)) && written.None?
    ensures FileArgument(command).Some? && canWrite ==>
              r == Saved(FileArgument(command).value) && Walk(keys, s) &&
              written == Some((FileArgument(command).value, EncodeSnapshot(TablesOf(s, keys))))
    ensures written.Some? && KeysMatchNames(s) && EncodableStore(s) ==>
              DecodeSnapshot(written.value.1) == Some((s, |s|))
    ensures r == SaveCommand(command, canWrite)
    ensures written.Some? <==> r.Saved?
    ensures written.Some? ==> written.value.0 == r.filename
  {
    keys := [];
    var f := FileArgument(command);
    if f.None? {
      return Failed(FilenameRequired), None, keys;
    }
    if !canWrite {
      return Failed(CannotWrite(f.value)), None, keys;
    }
    var bytes;
    bytes, keys := WriteSnapshot(s);
    return Saved(f.value), Some((f.value, bytes)), keys;
  }

  /** The table loop of handleLoad (CRT.cpp:578-636): `count` tables, each
      stored under its name once read. `decode` reads one table; LOAD
      passes DecodeTable. */
  method ReadTables(b: seq<byte>, count: nat, decode: seq<byte> -> Option<Decoded<Table>>)
    returns (s: Option<Store>)
    ensures s.Some? <==> DecodeList(b, count, decode).Some?
    ensures s.Some? ==> s.value == LoadInto(map[], DecodeList(b, count, decode).value.value)
  {
    var cur := b;
    var store: Store := map[];
    ghost var read: seq<Table> := [];
    var i := 0;
    while i < count
      invariant 0 <= i <= count && |read| == i
      invariant store == LoadInto(map[], read)
      invariant DecodeList(b, count, decode) == Prepend(read, DecodeList(cur, count - i, decode))
    {
      var t := decode(cur);
      if t.None? {
        return None;
      }
      PrependTwice(read, t.value.value, DecodeList(t.value.rest, count - i - 1, decode));
      LoadIntoAppend(map[], read, t.value.value);
      store := store[t.value.value.name := t.value.value];
      read := read + [t.value.value];
      cur := t.value.rest;
      i := i + 1;
    }
    assert read + [] == read;
    return Some(store);
  }

  /** handleLoad (CRT.cpp:547-649): the store is cleared once the file is
      open, then refilled one table at a time from the file's bytes. */
  method Load(s: Store, command: Str, files: map<Str, seq<byte>>) returns (r: Response, s': Store)
    ensures (r, s') == LoadCommand(s, command, files)
  {
    s' := s;
    var f := FileArgument(command);
    if f.None? {
      return Failed(FilenameRequired), s';
    }
    if f.value !in files {
      return Failed(CannotOpen(f.value)), s';
    }
    var b := files[f.value];
    s' := map[];
    var n := DecodeSize(b);
    if n.None? {
      return Failed(MalformedSnapshot), s';
    }
    var read := ReadTables(n.value.rest, n.value.value, DecodeTable);
    if read.None? {
      return Failed(MalformedSnapshot), s';
    }
    s' := read.value;
    return Loaded(f.value, n.value.value), s';
  }
}
