/** What each command handler does to the store (CRT.cpp:117-461), as pure
    functions from the store and the command line to a response and the
    new store. Printed messages become `Response` values; the handlers'
    early returns after an error message become `Failed` responses. */
module Commands {
  import opened Wrappers
  import opened Strings
  import opened Validator
  import opened Tables
  import opened Condition
  import opened Codec

  /** The error messages of the handlers, one constructor per message. */
  datatype Error =
    | TableNameRequired
    | TableExists(name: Str)
    | MissingParentheses
    | InvalidColumnDefinition(definition: Str)
    | UnsupportedType(typ: Str)
    | NoColumns
    | TableNotFound(name: Str)
    | ValueCountMismatch(expected: nat, got: nat)
    | InvalidValue(value: Str, column: Str)
    | InvalidSetClause
    | ColumnNotFound(column: Str)
    | NoUpdates
    | FilenameRequired
    | CannotOpen(filename: Str)
    | CannotWrite(filename: Str)
    | MalformedSnapshot
    | UnknownCommand

  /** What a command reports. */
  datatype Response =
    | Created(name: Str)
    | Inserted(name: Str, id: int32)
    | TableIsEmpty(name: Str)
    | Selected(name: Str, rows: seq<Row>)
    | Deleted(name: Str, count: nat)
    | Updated(name: Str, count: nat)
    | Saved(filename: Str)
    | Loaded(filename: Str, count: nat)
    | HelpShown
    | Goodbye
    | Nothing
    | Failed(error: Error)

  // ---- Reading the command line ----

  /** What is left after n extractions `ss >> word`. */
  function SkipWords(s: Str, n: nat): (r: Str)
    ensures |r| <= |s| && r == s[|s| - |r|..]
  {
    if n == 0 then s else SkipWords(Scan(s).1, n - 1)
  }

  /** A table name and the rest of the line after the words that follow it. */
  datatype Header = Header(name: Str, rest: Str)

  /** CREATE TABLE name (...): two words, the name, then getline. */
  function CreateHeader(command: Str): Header {
    var (name, rest) := Scan(SkipWords(command, 2));
    Header(name, Line(rest))
  }

  /** INSERT INTO name VALUES (...): two words, the name, one more word,
      then getline. */
  function InsertHeader(command: Str): Header {
    var (name, rest) := Scan(SkipWords(command, 2));
    Header(name, Line(SkipWords(rest, 1)))
  }

  /** The optional WHERE part of SELECT and DELETE (CRT.cpp:272-276 and
      330-334): when the next word is WHERE in any case, the rest of the
      line, trimmed; otherwise no condition. */
  function WhereCondition(rest: Str): (c: Str)
    ensures c == [] || (!IsSpace(c[0]) && !IsSpace(c[|c| - 1]))
    ensures var (word, after) := Scan(rest);
            (word != [] && ToUpper(word) == "WHERE" ==> c == Trim(Line(after))) &&
            (word == [] || ToUpper(word) != "WHERE" ==> c == [])
  {
    var (word, after) := Scan(rest);
    if word != [] && ToUpper(word) == "WHERE" then Trim(Line(after)) else []
  }

  /** A word that upper-cases to WHERE has no white space in it. */
  lemma WhereWordIsWord(w: Str)
    requires ToUpper(w) == "WHERE"
    ensures w != [] && forall i :: 0 <= i < |w| ==> !IsSpace(w[i])
  {
    forall i | 0 <= i < |w|
      ensures !IsSpace(w[i])
    {
      assert ToUpper(w)[i] == UpperChar(w[i]);
    }
  }

  /** After the table name, the word WHERE in any letter case followed by
      a one-line condition gives that condition, trimmed. */
  lemma WhereClause(ws: Str, w: Str, condition: Str)
    requires AllSpace(ws) && ToUpper(w) == "WHERE"
    requires condition == [] || IsSpace(condition[0])
    requires '\n' !in condition
    ensures WhereCondition(ws + w + condition) == Trim(condition)
  {
    WhereWordIsWord(w);
    ScanWord(ws, w, condition);
  }

  /** SELECT * FROM name [WHERE condition]: three words, the name, the
      condition. */
  function SelectHeader(command: Str): Header {
    var (name, rest) := Scan(SkipWords(command, 3));
    Header(name, WhereCondition(rest))
  }

  /** DELETE FROM name [WHERE condition]: two words, the name, the
      condition. */
  function DeleteHeader(command: Str): Header {
    var (name, rest) := Scan(SkipWords(command, 2));
    Header(name, WhereCondition(rest))
  }

  datatype UpdateParts = UpdateParts(name: Str, setClause: Str, condition: Str)

  /** The exact, case-sensitive text " WHERE " that ends the SET list. */
  const WHERE_SEPARATOR: Str := " WHERE "

  /** The rest of an UPDATE line split at the first " WHERE " (CRT.cpp:376-385):
      the SET list before it and the condition after it, both trimmed; with
      no " WHERE " the whole rest is the SET list and there is no condition. */
  function SplitWhere(remaining: Str): (r: (Str, Str))
    ensures Find(remaining, WHERE_SEPARATOR, 0).None? ==> r == (Trim(remaining), [])
    ensures Find(remaining, WHERE_SEPARATOR, 0).Some? ==>
              var p := Find(remaining, WHERE_SEPARATOR, 0).value;
              r == (Trim(remaining[..p]), Trim(remaining[p + |WHERE_SEPARATOR|..]))
  {
    var found := Find(remaining, WHERE_SEPARATOR, 0);
    if found.None? then (Trim(remaining), [])
    else (Trim(remaining[..found.value]), Trim(remaining[found.value + |WHERE_SEPARATOR|..]))
  }

  /** UPDATE name SET ... [WHERE ...] (CRT.cpp:367-387): one word, the name,
      one more word, then the rest of the line. */
  function UpdateHeader(command: Str): UpdateParts {
    var (name, rest) := Scan(SkipWords(command, 1));
    var (setClause, condition) := SplitWhere(Line(SkipWords(rest, 1)));
    UpdateParts(name, setClause, condition)
  }

  /** " WHERE " has its capital W second, so it cannot start where the
      next character is not a capital W. */
  lemma NoWhereWithoutCapital(s: Str, j: nat)
    requires j + 1 < |s| ==> s[j + 1] != 'W'
    ensures !OccursAt(s, WHERE_SEPARATOR, j)
  {
    if j + |WHERE_SEPARATOR| <= |s| {
      assert s[j..j + |WHERE_SEPARATOR|][1] == s[j + 1];
    }
  }

  /** Only an upper-case " WHERE " ends the SET list: a rest without a
      capital W (a lower-case "where", say) is read whole as the SET list. */
  lemma SplitWhereNeedsCapitalWhere(remaining: Str)
    requires 'W' !in remaining
    ensures SplitWhere(remaining) == (Trim(remaining), [])
  {
    forall j: nat
      ensures !OccursAt(remaining, WHERE_SEPARATOR, j)
    {
      NoWhereWithoutCapital(remaining, j);
    }
    assert Find(remaining, WHERE_SEPARATOR, 0).None?;
  }

  /** The first " WHERE " splits the rest: what comes before it (with no
      capital W of its own) is the SET list and all that follows is the
      condition, even when it holds another " WHERE ". */
  lemma SplitWhereAtFirstWhere(before: Str, after: Str)
    requires 'W' !in before
    ensures SplitWhere(before + WHERE_SEPARATOR + after) == (Trim(before), Trim(after))
  {
    var remaining := before + WHERE_SEPARATOR + after;
    var n := |before|;
    assert remaining[n..n + |WHERE_SEPARATOR|] == WHERE_SEPARATOR;
    assert OccursAt(remaining, WHERE_SEPARATOR, n);
    forall j: nat | j < n
      ensures !OccursAt(remaining, WHERE_SEPARATOR, j)
    {
      if j + 1 < n {
        assert remaining[j + 1] == before[j + 1];
      } else {
        assert remaining[j + 1] == WHERE_SEPARATOR[0];
      }
      NoWhereWithoutCapital(remaining, j);
    }
    assert Find(remaining, WHERE_SEPARATOR, 0) == Some(n);
    assert remaining[..n] == before;
    assert remaining[n + |WHERE_SEPARATOR|..] == after;
  }

  /** The general form: when no " WHERE " starts inside `before` (not even
      one running into the separator that follows it), the rest splits at
      the end of `before`, whatever capitals `before` holds. */
  lemma SplitWhereAtSeparator(before: Str, after: Str)
    requires forall j :: 0 <= j < |before| ==> !OccursAt(before + WHERE_SEPARATOR, WHERE_SEPARATOR, j)
    ensures SplitWhere(before + WHERE_SEPARATOR + after) == (Trim(before), Trim(after))
  {
    var remaining := before + WHERE_SEPARATOR + after;
    var n := |before|;
    var head := before + WHERE_SEPARATOR;
    assert remaining == head + after;
    assert remaining[n..n + |WHERE_SEPARATOR|] == WHERE_SEPARATOR;
    assert OccursAt(remaining, WHERE_SEPARATOR, n);
    forall j: nat | j < n
      ensures !OccursAt(remaining, WHERE_SEPARATOR, j)
    {
      assert !OccursAt(head, WHERE_SEPARATOR, j);
      assert remaining[j..j + |WHERE_SEPARATOR|] == head[j..j + |WHERE_SEPARATOR|];
    }
    assert Find(remaining, WHERE_SEPARATOR, 0) == Some(n);
    assert remaining[..n] == before;
    assert remaining[n + |WHERE_SEPARATOR|..] == after;
  }

  // ---- Comma-separated lists ----

  /** Each field parsed in order, stopping at the first refusal: the loop
      shared by the column list of CREATE and the SET list of UPDATE. */
  function ParseEach<T>(fields: seq<Str>, parse: Str -> Result<T, Error>): (r: Result<seq<T>, Error>)
    ensures r.Ok? ==> |r.value| == |fields|
  {
    if fields == [] then Ok([])
    else
      match ParseEach(fields[..|fields| - 1], parse)
      case Err(e) => Err(e)
      case Ok(init) =>
        match parse(fields[|fields| - 1])
        case Err(e) => Err(e)
        case Ok(v) => Ok(init + [v])
  }

  /** The list is accepted exactly when every field is. */
  lemma {:induction false} ParseEachAccepted<T>(fields: seq<Str>, parse: Str -> Result<T, Error>)
    ensures ParseEach(fields, parse).Ok? <==> forall i :: 0 <= i < |fields| ==> parse(fields[i]).Ok?
    decreases |fields|
  {
    if fields != [] {
      var init := fields[..|fields| - 1];
      ParseEachAccepted(init, parse);
      assert forall i :: 0 <= i < |init| ==> init[i] == fields[i];
    }
  }

  /** An accepted list holds, in order, what each field gives on its own. */
  lemma {:induction false} ParseEachValues<T>(fields: seq<Str>, parse: Str -> Result<T, Error>)
    requires ParseEach(fields, parse).Ok?
    ensures forall i :: 0 <= i < |fields| ==>
              parse(fields[i]).Ok? && ParseEach(fields, parse).value[i] == parse(fields[i]).value
    decreases |fields|
  {
    if fields != [] {
      var init := fields[..|fields| - 1];
      ParseEachValues(init, parse);
      var vs := ParseEach(init, parse).value + [parse(fields[|fields| - 1]).value];
      assert ParseEach(fields, parse).value == vs;
      forall i | 0 <= i < |fields|
        ensures parse(fields[i]).Ok? && vs[i] == parse(fields[i]).value
      {
        if i < |init| {
          assert init[i] == fields[i];
        }
      }
    }
  }

  /** A refused list reports the error of its first refused field. */
  lemma {:induction false} ParseEachFirstFailure<T>(fields: seq<Str>, parse: Str -> Result<T, Error>)
    requires ParseEach(fields, parse).Err?
    ensures exists i :: 0 <= i < |fields| && parse(fields[i]).Err? &&
                        ParseEach(fields, parse).error == parse(fields[i]).error &&
                        forall j :: 0 <= j < i ==> parse(fields[j]).Ok?
    decreases |fields|
  {
    var init := fields[..|fields| - 1];
    assert forall i :: 0 <= i < |init| ==> init[i] == fields[i];
    if ParseEach(init, parse).Err? {
      ParseEachFirstFailure(init, parse);
      var k :| 0 <= k < |init| && parse(init[k]).Err? &&
               ParseEach(init, parse).error == parse(init[k]).error &&
               forall j :: 0 <= j < k ==> parse(init[j]).Ok?;
      assert parse(fields[k]).Err?;
    } else {
      ParseEachAccepted(init, parse);
      assert parse(fields[|init|]).Err?;
    }
  }

  /** Once a prefix of the list is refused, the whole list is refused the
      same way: the loop returns at the first refusal. */
  lemma {:induction false} ParseEachFirstError<T>(fields: seq<Str>, parse: Str -> Result<T, Error>, i: nat)
    requires i <= |fields|
    requires ParseEach(fields[..i], parse).Err?
    ensures ParseEach(fields, parse) == ParseEach(fields[..i], parse)
    decreases |fields| - i
  {
    if i < |fields| {
      assert fields[..i + 1][..i] == fields[..i];
      ParseEachFirstError(fields, parse, i + 1);
    } else {
      assert fields[..i] == fields;
    }
  }

  /** The present values, in order. */
  function Present<T>(items: seq<Option<T>>): (r: seq<T>)
    ensures |r| <= |items|
  {
    if items == [] then []
    else
      Present(items[..|items| - 1]) +
      match items[|items| - 1] case None => [] case Some(x) => [x]
  }

  /** Nothing present means every item is absent. */
  lemma {:induction false} PresentNone<T>(items: seq<Option<T>>)
    requires Present(items) == []
    ensures forall i :: 0 <= i < |items| ==> items[i].None?
    decreases |items|
  {
    if items != [] {
      var init := items[..|items| - 1];
      PresentNone(init);
      assert forall i :: 0 <= i < |init| ==> init[i] == items[i];
    }
  }

  /** What holds of every present item holds of every value kept. */
  lemma {:induction false} PresentAll<T>(items: seq<Option<T>>, p: T -> bool)
    requires forall i :: 0 <= i < |items| ==> items[i].Some? ==> p(items[i].value)
    ensures forall k :: 0 <= k < |Present(items)| ==> p(Present(items)[k])
    decreases |items|
  {
    if items != [] {
      var init := items[..|items| - 1];
      assert forall i :: 0 <= i < |init| ==> init[i] == items[i];
      PresentAll(init, p);
    }
  }

  // ---- CREATE: the column list ----

  /** One comma-separated column definition (CRT.cpp:157-175): blank ones
      are skipped; otherwise a name and a type word, the type upper-cased
      and required to be INT or TEXT. */
  function ParseColumnDef(field: Str): (r: Result<Option<Column>, Error>)
    ensures r == Ok(None) <==> Trim(field) == []
    ensures r.Ok? && r.value.Some? ==>
              r.value.value.name != [] && (r.value.value.typ == "INT" || r.value.value.typ == "TEXT")
  {
    var def := Trim(field);
    if def == [] then Ok(None)
    else
      var (colName, after) := Scan(def);
      var (colType, _) := Scan(after);
      if colName == [] || colType == [] then Err(InvalidColumnDefinition(def))
      else
        var typ := ToUpper(colType);
        if typ != "INT" && typ != "TEXT" then Err(UnsupportedType(typ))
        else Ok(Some(Column(colName, typ)))
  }

  /** The columns of all definitions in order, blank ones giving none, or
      the first definition's error. */
  function ParseColumnDefs(fields: seq<Str>): (r: Result<seq<Column>, Error>)
    ensures r.Ok? ==> |r.value| <= |fields|
    ensures r.Ok? ==> forall i :: 0 <= i < |r.value| ==> r.value[i].typ == "INT" || r.value[i].typ == "TEXT"
    ensures r.Ok? && r.value == [] ==> forall i :: 0 <= i < |fields| ==> Trim(fields[i]) == []
  {
    match ParseEach(fields, ParseColumnDef)
    case Err(e) => Err(e)
    case Ok(defs) =>
      ParseEachValues(fields, ParseColumnDef);
      PresentAll(defs, (c: Column) => c.typ == "INT" || c.typ == "TEXT");
      if Present(defs) == [] then PresentNone(defs); Ok([]) else Ok(Present(defs))
  }

  /** A non-blank definition is read as its first two words: with either
      missing it is refused as a whole, a type other than INT or TEXT (in
      any letter case) is refused by name, and otherwise it gives the
      column with its type upper-cased. */
  lemma ColumnDefCases(field: Str)
    ensures var def := Trim(field);
            var (colName, after) := Scan(def);
            var colType := Scan(after).0;
            def != [] ==>
              (colName == [] || colType == [] ==> ParseColumnDef(field) == Err(InvalidColumnDefinition(def))) &&
              (colName != [] && colType != [] && ToUpper(colType) != "INT" && ToUpper(colType) != "TEXT" ==>
                 ParseColumnDef(field) == Err(UnsupportedType(ToUpper(colType)))) &&
              (colName != [] && colType != [] && (ToUpper(colType) == "INT" || ToUpper(colType) == "TEXT") ==>
                 ParseColumnDef(field) == Ok(Some(Column(colName, ToUpper(colType)))))
  {
  }

  /** A definition written `name type`, with any white space around and
      between the two words, gives the column `name` with the type
      upper-cased, or is refused when the type is neither INT nor TEXT in
      any letter case. */
  lemma ColumnDefOf(ws1: Str, name: Str, ws2: Str, typ: Str, ws3: Str)
    requires AllSpace(ws1) && AllSpace(ws3)
    requires ws2 != [] && AllSpace(ws2)
    requires name != [] && forall i :: 0 <= i < |name| ==> !IsSpace(name[i])
    requires typ != [] && forall i :: 0 <= i < |typ| ==> !IsSpace(typ[i])
    ensures ParseColumnDef(ws1 + (name + ws2 + typ) + ws3) ==
            if ToUpper(typ) == "INT" || ToUpper(typ) == "TEXT" then Ok(Some(Column(name, ToUpper(typ))))
            else Err(UnsupportedType(ToUpper(typ)))
  {
    TwoWords(ws1, name, ws2, typ, ws3);
  }

  /** A definition with a name and no type is refused. */
  lemma ColumnDefWithoutType(name: Str)
    requires name != [] && forall i :: 0 <= i < |name| ==> !IsSpace(name[i])
    ensures ParseColumnDef(name) == Err(InvalidColumnDefinition(name))
  {
    assert name == [] + name + [];
    ScanWord([], name, []);
  }

  /** The definition list is accepted exactly when every definition is;
      it then gives each definition's column in order, blank definitions
      giving none; otherwise the error of the first refused definition. */
  lemma ColumnDefsMeaning(fields: seq<Str>)
    ensures ParseColumnDefs(fields).Ok? <==> forall i :: 0 <= i < |fields| ==> ParseColumnDef(fields[i]).Ok?
    ensures ParseColumnDefs(fields).Ok? ==>
              var defs := ParseEach(fields, ParseColumnDef).value;
              ParseColumnDefs(fields).value == Present(defs) &&
              forall i :: 0 <= i < |fields| ==> defs[i] == ParseColumnDef(fields[i]).value
    ensures ParseColumnDefs(fields).Err? ==>
              exists i :: 0 <= i < |fields| && ParseColumnDef(fields[i]).Err? &&
                          ParseColumnDefs(fields).error == ParseColumnDef(fields[i]).error &&
                          forall j :: 0 <= j < i ==> ParseColumnDef(fields[j]).Ok?
  {
    ParseEachAccepted(fields, ParseColumnDef);
    if ParseEach(fields, ParseColumnDef).Ok? {
      ParseEachValues(fields, ParseColumnDef);
    } else {
      ParseEachFirstFailure(fields, ParseColumnDef);
    }
  }

  // ---- INSERT: the value list ----

  /** A value as INSERT keeps it (CRT.cpp:227-232): trimmed, then stripped
      of surrounding quotes. */
  function CleanValue(field: Str): Str {
    StripQuotes(Trim(field))
  }

  /** The index of the first value that its column's type rejects, or the
      number of values when all pass. */
  function FirstInvalid(values: seq<Str>, columns: seq<Column>): (k: nat)
    requires |values| == |columns|
    ensures k <= |values|
    ensures forall i :: 0 <= i < k ==> ValidateDataType(values[i], columns[i].typ)
    ensures k < |values| ==> !ValidateDataType(values[k], columns[k].typ)
  {
    if values == [] then 0
    else if !ValidateDataType(values[0], columns[0].typ) then 0
    else 1 + FirstInvalid(values[1..], columns[1..])
  }

  // ---- UPDATE: the SET list ----

  /** A checked assignment: the index of the column and its new value. */
  datatype Assignment = Assignment(column: nat, value: Str)

  /** The assignment names a column and its value passes that column's type. */
  predicate Checked(u: Assignment, columns: seq<Column>) {
    u.column < |columns| && ValidateDataType(u.value, columns[u.column].typ)
  }

  /** One `column = value` item split at its first '=' (CRT.cpp:401-415):
      the item and both sides trimmed, the value stripped of quotes; None
      when there is no '='. */
  function SplitAssignment(field: Str): (r: Option<(Str, Str)>)
    ensures r.None? <==> '=' !in Trim(field)
    ensures r.Some? ==>
              var a := Trim(field);
              var eq := IndexOf(a, '=');
              r.value == (Trim(a[..eq]), StripQuotes(Trim(a[eq + 1..])))
  {
    var a := Trim(field);
    var eq := IndexOf(a, '=');
    if eq == |a| then None
    else Some((Trim(a[..eq]), StripQuotes(Trim(a[eq + 1..]))))
  }

  /** `name = value` splits at its first '=', so the value may hold
      further '=' signs; both sides are trimmed and the value loses its
      quotes. */
  lemma SplitAssignmentOf(name: Str, value: Str)
    requires '=' !in name
    requires name != [] && !IsSpace(name[0])
    requires value != [] && !IsSpace(value[|value| - 1])
    ensures SplitAssignment(name + ['='] + value) == Some((Trim(name), StripQuotes(Trim(value))))
  {
    var a := name + ['='] + value;
    assert a[0] == name[0] && a[|a| - 1] == value[|value| - 1];
    assert Trim(a) == a;
    IndexOfAt(a, '=', |name|);
    assert a[..|name|] == name && a[|name| + 1..] == value;
  }

  lemma {:induction false} IndexOfAt(s: Str, c: char, n: nat)
    requires n < |s| && s[n] == c && forall j :: 0 <= j < n ==> s[j] != c
    ensures IndexOf(s, c) == n
  {
    if n > 0 {
      IndexOfAt(s[1..], c, n - 1);
    }
  }

  /** One SET item checked against the table (CRT.cpp:401-433): it needs an
      '=', a column of that name, and a value of the column's type. */
  function ParseAssignment(field: Str, columns: seq<Column>): (r: Result<Assignment, Error>)
    ensures '=' !in Trim(field) ==> r == Err(InvalidSetClause)
    ensures r.Ok? ==> Checked(r.value, columns)
  {
    var parts := SplitAssignment(field);
    if parts.None? then Err(InvalidSetClause)
    else
      var (col, value) := parts.value;
      var ci := ColumnIndex(columns, col);
      if ci.None? then Err(ColumnNotFound(col))
      else if !ValidateDataType(value, columns[ci.value].typ) then Err(InvalidValue(value, col))
      else Ok(Assignment(ci.value, value))
  }

  /** A SET item with an '=' names its column on the left: a name the
      table lacks is refused, a value the column's type rejects is refused
      with both named, and otherwise the item assigns the value to that
      column's position. */
  lemma AssignmentCases(field: Str, columns: seq<Column>)
    ensures SplitAssignment(field).Some? ==>
              var (col, value) := SplitAssignment(field).value;
              var ci := ColumnIndex(columns, col);
              (ci.None? ==> ParseAssignment(field, columns) == Err(ColumnNotFound(col))) &&
              (ci.Some? && !ValidateDataType(value, columns[ci.value].typ) ==> ParseAssignment(field, columns) == Err(InvalidValue(value, col))) &&
              (ci.Some? && ValidateDataType(value, columns[ci.value].typ) ==> ParseAssignment(field, columns) == Ok(Assignment(ci.value, value)))
  {
  }

  /** ParseAssignment against one table's columns, as a function value. */
  function AssignmentParser(columns: seq<Column>): Str -> Result<Assignment, Error> {
    field => ParseAssignment(field, columns)
  }

  /** Every assignment checked in order; the first failure wins. */
  function ParseAssignments(fields: seq<Str>, columns: seq<Column>): (r: Result<seq<Assignment>, Error>)
    ensures r.Ok? ==> |r.value| == |fields|
    ensures r.Ok? ==> forall i :: 0 <= i < |r.value| ==> Checked(r.value[i], columns)
  {
    var r := ParseEach(fields, AssignmentParser(columns));
    if r.Ok? then ParseEachValues(fields, AssignmentParser(columns)); r else r
  }

  /** The SET list is accepted exactly when every item is; it then gives
      each item's assignment in order; otherwise the error of the first
      refused item. */
  lemma AssignmentsMeaning(fields: seq<Str>, columns: seq<Column>)
    ensures ParseAssignments(fields, columns).Ok? <==>
            forall i :: 0 <= i < |fields| ==> ParseAssignment(fields[i], columns).Ok?
    ensures ParseAssignments(fields, columns).Ok? ==>
              forall i :: 0 <= i < |fields| ==>
                ParseAssignments(fields, columns).value[i] == ParseAssignment(fields[i], columns).value
    ensures ParseAssignments(fields, columns).Err? ==>
              exists i :: 0 <= i < |fields| && ParseAssignment(fields[i], columns).Err? &&
                          ParseAssignments(fields, columns).error == ParseAssignment(fields[i], columns).error &&
                          forall j :: 0 <= j < i ==> ParseAssignment(fields[j], columns).Ok?
  {
    var parse := AssignmentParser(columns);
    ParseEachAccepted(fields, parse);
    if ParseEach(fields, parse).Ok? {
      ParseEachValues(fields, parse);
    } else {
      ParseEachFirstFailure(fields, parse);
    }
  }

  /** The value the last assignment to column j gives, if any assigns it. */
  function LastAssigned(us: seq<Assignment>, j: nat): Option<Str> {
    if us == [] then None
    else if us[|us| - 1].column == j then Some(us[|us| - 1].value)
    else LastAssigned(us[..|us| - 1], j)
  }

  /** `row.values[update.first] = update.second` for each assignment in
      order (CRT.cpp:451-453). A row shorter than the column list (only a
      loaded snapshot can hold one) is written out of range in the
      original; here such an assignment is skipped. */
  function ApplyAssignments(values: seq<Str>, us: seq<Assignment>): (r: seq<Str>)
    ensures |r| == |values|
    ensures forall j :: 0 <= j < |values| ==>
              r[j] == match LastAssigned(us, j) case Some(v) => v case None => values[j]
  {
    if us == [] then values
    else
      var before := ApplyAssignments(values, us[..|us| - 1]);
      var u := us[|us| - 1];
      if u.column < |before| then before[u.column := u.value] else before
  }

  // ---- Row filters ----

  /** The rows whose verdict under the condition is `verdict`, in their
      order: SELECT shows and UPDATE changes the rows judged true, DELETE
      keeps the rows judged false (std::remove_if keeps the order of the
      rows it keeps). */
  function Filter(rows: seq<Row>, columns: seq<Column>, condition: Str, verdict: bool): (m: seq<Row>)
    ensures |m| <= |rows|
  {
    if rows == [] then []
    else
      var m := Filter(rows[..|rows| - 1], columns, condition, verdict);
      if Evaluate(rows[|rows| - 1], columns, condition) == verdict then m + [rows[|rows| - 1]] else m
  }

  /** The rows the condition holds for. */
  function Matching(rows: seq<Row>, columns: seq<Column>, condition: Str): seq<Row> {
    Filter(rows, columns, condition, true)
  }

  /** The rows the condition does not hold for. */
  function NonMatching(rows: seq<Row>, columns: seq<Column>, condition: Str): seq<Row> {
    Filter(rows, columns, condition, false)
  }

  /** A row is kept exactly when it is one of the rows and gets the verdict. */
  lemma {:induction false} FilterMembers(rows: seq<Row>, columns: seq<Column>, condition: Str, verdict: bool)
    ensures forall r :: r in Filter(rows, columns, condition, verdict) <==>
                        r in rows && Evaluate(r, columns, condition) == verdict
  {
    if rows != [] {
      var init := rows[..|rows| - 1];
      assert rows == init + [rows[|rows| - 1]];
      FilterMembers(init, columns, condition, verdict);
    }
  }

  /** Filtering keeps the order of the rows: ascending ids stay ascending. */
  lemma {:induction false} FilterAscending(rows: seq<Row>, columns: seq<Column>, condition: Str, verdict: bool)
    requires AscendingIds(rows)
    ensures AscendingIds(Filter(rows, columns, condition, verdict))
  {
    if rows != [] {
      var init := rows[..|rows| - 1];
      var last := rows[|rows| - 1];
      assert rows == init + [last];
      AscendingPrefix(init, last);
      FilterAscending(init, columns, condition, verdict);
      FilterMembers(init, columns, condition, verdict);
      var m := Filter(init, columns, condition, verdict);
      if Evaluate(last, columns, condition) == verdict {
        AppendAscending(init, last, m);
      }
    }
  }

  /** A prefix of rows with ascending ids has ascending ids. */
  lemma AscendingPrefix(init: seq<Row>, last: Row)
    requires AscendingIds(init + [last])
    ensures AscendingIds(init)
    ensures forall r :: r in init ==> r.id < last.id
  {
    var rows := init + [last];
    forall i, j | 0 <= i < j < |init|
      ensures init[i].id < init[j].id
    {
      assert init[i] == rows[i] && init[j] == rows[j];
    }
    forall r | r in init
      ensures r.id < last.id
    {
      var k :| 0 <= k < |init| && init[k] == r;
      assert rows[k] == r && rows[|init|] == last;
    }
  }

  /** Appending a row whose id exceeds every id among some ascending rows
      keeps them ascending. */
  lemma AppendAscending(init: seq<Row>, last: Row, m: seq<Row>)
    requires AscendingIds(m)
    requires forall r :: r in m ==> r in init
    requires forall r :: r in init ==> r.id < last.id
    ensures AscendingIds(m + [last])
  {
    var n := m + [last];
    forall i, j | 0 <= i < j < |n|
      ensures n[i].id < n[j].id
    {
      if j < |m| {
        assert n[i] == m[i] && n[j] == m[j];
      } else {
        assert n[i] == m[i] && m[i] in init;
      }
    }
  }

  /** Every row is judged one way or the other: the two filters split the
      rows. */
  lemma {:induction false} FilterPartition(rows: seq<Row>, columns: seq<Column>, condition: Str)
    ensures |Matching(rows, columns, condition)| + |NonMatching(rows, columns, condition)| == |rows|
  {
    if rows != [] {
      FilterPartition(rows[..|rows| - 1], columns, condition);
    }
  }

  /** With no condition every row matches and none is left over. */
  lemma {:induction false} EmptyConditionMatchesAll(rows: seq<Row>, columns: seq<Column>)
    ensures Matching(rows, columns, []) == rows
    ensures NonMatching(rows, columns, []) == []
  {
    if rows != [] {
      EmptyConditionMatchesAll(rows[..|rows| - 1], columns);
    }
  }

  /** A row as UPDATE leaves it: assigned when the condition holds. */
  function UpdateRow(row: Row, columns: seq<Column>, condition: Str, us: seq<Assignment>): Row {
    if Evaluate(row, columns, condition) then row.(values := ApplyAssignments(row.values, us)) else row
  }

  /** The rows after UPDATE: same count, same ids, same order; rows the
      condition rejects are untouched. */
  function UpdateRows(rows: seq<Row>, columns: seq<Column>, condition: Str, us: seq<Assignment>): (r: seq<Row>)
    ensures |r| == |rows|
    ensures forall i :: 0 <= i < |rows| ==> r[i].id == rows[i].id && |r[i].values| == |rows[i].values|
    ensures forall i :: 0 <= i < |rows| && !Evaluate(rows[i], columns, condition) ==> r[i] == rows[i]
    ensures forall i :: 0 <= i < |rows| && Evaluate(rows[i], columns, condition) ==>
              r[i].values == ApplyAssignments(rows[i].values, us)
  {
    seq(|rows|, i requires 0 <= i < |rows| => UpdateRow(rows[i], columns, condition, us))
  }

  // ---- The handlers ----

  /** The rest of a CREATE or INSERT line holds both parentheses. */
  predicate HasParens(rest: Str) {
    '(' in rest && ')' in rest
  }

  /** The comma-separated items left once every parenthesis is erased. */
  function ParenFields(rest: Str): seq<Str> {
    SplitComma(RemoveParens(rest))
  }

  /** handleCreate (CRT.cpp:119-189): the line read, then the table made. */
  function CreateCommand(s: Store, command: Str): (Response, Store) {
    ApplyCreate(s, CreateHeader(command))
  }

  /** handleCreate once the name and the rest of the line are read
      (CRT.cpp:131-188). */
  function ApplyCreate(s: Store, h: Header): (Response, Store)
  {
    if h.name == [] then (Failed(TableNameRequired), s)
    else if h.name in s then (Failed(TableExists(h.name)), s)
    else if !HasParens(h.rest) then (Failed(MissingParentheses), s)
    else
      var cols := ParseColumnDefs(ParenFields(h.rest));
      if cols.Err? then (Failed(cols.error), s)
      else if cols.value == [] then (Failed(NoColumns), s)
      else (Created(h.name), s[h.name := Table(h.name, cols.value, [], 1)])
  }

  /** CREATE either fails and leaves the store alone, or adds exactly one
      table: new, under its own name, with at least one column, each INT
      or TEXT, no rows, and its counter at 1. A name already in use is
      refused. */
  lemma CreateOutcome(s: Store, h: Header)
    ensures var (r, s') := ApplyCreate(s, h);
            var cols := ParseColumnDefs(ParenFields(h.rest));
            (h.name == [] ==> r == Failed(TableNameRequired)) &&
            (h.name != [] && h.name !in s && !HasParens(h.rest) ==> r == Failed(MissingParentheses)) &&
            (h.name != [] && h.name !in s && HasParens(h.rest) ==>
               (cols.Err? ==> r == Failed(cols.error)) &&
               (cols.Ok? && cols.value == [] ==> r == Failed(NoColumns)) &&
               (cols.Ok? && cols.value != [] ==> r == Created(h.name) && s'[h.name].columns == cols.value))
    ensures var (r, s') := ApplyCreate(s, h);
            (r.Created? || r.Failed?) &&
            (r.Failed? ==> s' == s) &&
            (h.name != [] && h.name in s ==> r == Failed(TableExists(h.name))) &&
            (r.Created? ==>
               var t := s'[h.name];
               r.name == h.name && h.name !in s && s'.Keys == s.Keys + {h.name} &&
               (forall k :: k in s ==> s'[k] == s[k]) &&
               t.name == h.name && t.rows == [] && t.nextId == 1 && t.columns != [] &&
               forall i :: 0 <= i < |t.columns| ==> t.columns[i].typ == "INT" || t.columns[i].typ == "TEXT")
  {
    if h.name != [] && h.name !in s && HasParens(h.rest) {
      var cols := ParseColumnDefs(ParenFields(h.rest));
      if cols.Ok? && cols.value != [] {
        var t := Table(h.name, cols.value, [], 1);
        assert ApplyCreate(s, h) == (Created(h.name), s[h.name := t]);
      }
    }
  }

  /** The values of an INSERT, cleaned, in order. */
  function InsertValues(rest: Str): seq<Str> {
    var fields := ParenFields(rest);
    seq(|fields|, i requires 0 <= i < |fields| => CleanValue(fields[i]))
  }

  /** The row an INSERT builds from its values (CRT.cpp:237-252): one value
      per column, each passing its column's type, checked in order; the row
      takes the table's counter as its id. */
  function InsertRow(t: Table, vs: seq<Str>): Result<Row, Error> {
    if |vs| != |t.columns| then Err(ValueCountMismatch(|t.columns|, |vs|))
    else
      var k := FirstInvalid(vs, t.columns);
      if k < |vs| then Err(InvalidValue(vs[k], t.columns[k].name))
      else Ok(Row(vs, t.nextId))
  }

  /** handleInsert (CRT.cpp:192-259): the line read, then the row added. */
  function InsertCommand(s: Store, command: Str): (Response, Store) {
    ApplyInsert(s, InsertHeader(command))
  }

  /** handleInsert once the name and the value list are read
      (CRT.cpp:204-258). The counter is bumped before the values are
      checked, so a rejected row still uses up an id. */
  function ApplyInsert(s: Store, h: Header): (Response, Store)
  {
    if h.name !in s then (Failed(TableNotFound(h.name)), s)
    else if !HasParens(h.rest) then (Failed(MissingParentheses), s)
    else
      var t := s[h.name];
      var bumped := t.(nextId := Increment(t.nextId));
      var row := InsertRow(t, InsertValues(h.rest));
      if row.Err? then (Failed(row.error), s[h.name := bumped])
      else (Inserted(h.name, t.nextId), s[h.name := bumped.(rows := t.rows + [row.value])])
  }

  /** The row is built exactly when the values fit the columns: one per
      column, each of its column's type. */
  lemma InsertRowFits(t: Table, vs: seq<Str>)
    ensures InsertRow(t, vs).Ok? <==> RowFits(Row(vs, t.nextId), t.columns)
    ensures InsertRow(t, vs).Ok? ==> InsertRow(t, vs).value == Row(vs, t.nextId)
  {
    if |vs| == |t.columns| && RowFits(Row(vs, t.nextId), t.columns) {
      assert FirstInvalid(vs, t.columns) == |vs|;
    }
  }

  /** INSERT on a missing table, or without both parentheses, changes
      nothing; otherwise it always bumps the table's counter, and appends
      the row with the counter's old value as its id exactly when the
      values fit the columns. Other tables are untouched. */
  lemma InsertOutcome(s: Store, h: Header)
    ensures var (r, s') := ApplyInsert(s, h);
            (r.Inserted? || r.Failed?) &&
            (h.name !in s || !HasParens(h.rest) ==> r.Failed? && s' == s) &&
            (h.name in s && HasParens(h.rest) ==>
               var t := s[h.name];
               var row := Row(InsertValues(h.rest), t.nextId);
               s'.Keys == s.Keys && (forall k :: k in s && k != h.name ==> s'[k] == s[k]) &&
               s'[h.name].name == t.name && s'[h.name].columns == t.columns &&
               s'[h.name].nextId == Increment(t.nextId) &&
               (r.Inserted? <==> RowFits(row, t.columns)) &&
               (r.Inserted? ==> r.name == h.name && r.id == t.nextId && s'[h.name].rows == t.rows + [row]) &&
               (r.Failed? ==> s'[h.name].rows == t.rows))
  {
    if h.name in s && HasParens(h.rest) {
      InsertRowFits(s[h.name], InsertValues(h.rest));
    }
  }

  /** handleSelect (CRT.cpp:262-318): the rows the condition holds for, in
      table order, or why there are none to show. The store is not a
      result: SELECT never changes it. */
  function SelectCommand(s: Store, command: Str): Response {
    ApplySelect(s, SelectHeader(command))
  }

  /** handleSelect once the name and the condition are read
      (CRT.cpp:278-317). */
  function ApplySelect(s: Store, h: Header): Response
  {
    if h.name !in s then Failed(TableNotFound(h.name))
    else
      var t := s[h.name];
      if t.rows == [] then TableIsEmpty(h.name)
      else Selected(h.name, Matching(t.rows, t.columns, h.rest))
  }

  /** SELECT shows, for an existing table with rows, exactly the rows the
      condition holds for, in table order, so ascending ids stay
      ascending; with no condition it shows every row. */
  lemma SelectOutcome(s: Store, h: Header)
    ensures var r := ApplySelect(s, h);
            (h.name !in s <==> r == Failed(TableNotFound(h.name))) &&
            (h.name in s && s[h.name].rows == [] <==> r == TableIsEmpty(h.name)) &&
            (r.Selected? ==>
               var t := s[h.name];
               r.name == h.name && h.name in s &&
               (forall row :: row in r.rows <==> row in t.rows && Evaluate(row, t.columns, h.rest)) &&
               (AscendingIds(t.rows) ==> AscendingIds(r.rows)) &&
               (h.rest == [] ==> r.rows == t.rows))
  {
    if h.name in s {
      var t := s[h.name];
      FilterMembers(t.rows, t.columns, h.rest, true);
      if AscendingIds(t.rows) {
        FilterAscending(t.rows, t.columns, h.rest, true);
      }
      EmptyConditionMatchesAll(t.rows, t.columns);
    }
  }

  /** handleDelete (CRT.cpp:321-361): keep the rows the condition rejects
      (all of them go when there is no condition) and report how many
      went. */
  function DeleteCommand(s: Store, command: Str): (Response, Store) {
    ApplyDelete(s, DeleteHeader(command))
  }

  /** handleDelete once the name and the condition are read
      (CRT.cpp:336-360). */
  function ApplyDelete(s: Store, h: Header): (Response, Store)
  {
    if h.name !in s then (Failed(TableNotFound(h.name)), s)
    else
      var t := s[h.name];
      if h.rest == [] then
        (Deleted(h.name, |t.rows|), s[h.name := t.(rows := [])])
      else
        var kept := NonMatching(t.rows, t.columns, h.rest);
        (Deleted(h.name, |t.rows| - |kept|), s[h.name := t.(rows := kept)])
  }

  /** DELETE on an existing table keeps exactly the rows the condition
      rejects (none without a condition) and reports how many went, which
      is the number of rows the condition holds for; the columns, the
      counter and the other tables are untouched. On a missing table it
      changes nothing. */
  lemma DeleteOutcome(s: Store, h: Header)
    ensures var (r, s') := ApplyDelete(s, h);
            (h.name !in s ==> r == Failed(TableNotFound(h.name)) && s' == s) &&
            (h.name in s ==>
               var t := s[h.name];
               var kept := s'[h.name].rows;
               r.Deleted? && r.name == h.name &&
               s'.Keys == s.Keys && (forall k :: k in s && k != h.name ==> s'[k] == s[k]) &&
               s'[h.name] == t.(rows := kept) &&
               (forall row :: row in kept <==> row in t.rows && !Evaluate(row, t.columns, h.rest)) &&
               r.count == |t.rows| - |kept| &&
               r.count == |Matching(t.rows, t.columns, h.rest)| &&
               (h.rest == [] ==> kept == []))
  {
    if h.name in s {
      var t := s[h.name];
      FilterPartition(t.rows, t.columns, h.rest);
      FilterMembers(t.rows, t.columns, h.rest, false);
      if h.rest == [] {
        EmptyConditionMatchesAll(t.rows, t.columns);
      }
    }
  }

  /** handleUpdate (CRT.cpp:364-461): every assignment is checked before
      any row changes; then the rows the condition holds for get them. */
  function UpdateCommand(s: Store, command: Str): (Response, Store) {
    ApplyUpdate(s, UpdateHeader(command))
  }

  /** handleUpdate once the name, the SET list and the condition are read
      (CRT.cpp:389-460). */
  function ApplyUpdate(s: Store, h: UpdateParts): (Response, Store)
  {
    if h.name !in s then (Failed(TableNotFound(h.name)), s)
    else
      var t := s[h.name];
      var us := ParseAssignments(SplitComma(h.setClause), t.columns);
      if us.Err? then (Failed(us.error), s)
      else if us.value == [] then (Failed(NoUpdates), s)
      else
        (Updated(h.name, |Matching(t.rows, t.columns, h.condition)|),
         s[h.name := t.(rows := UpdateRows(t.rows, t.columns, h.condition, us.value))])
  }

  /** UPDATE either fails and leaves the store alone, or rewrites rows of
      one table in place: the same rows in the same order with the same
      ids, the ones the condition holds for (and only those) given the
      assignments, and reports how many. An empty SET list is refused. */
  lemma UpdateOutcome(s: Store, h: UpdateParts)
    ensures var (r, s') := ApplyUpdate(s, h);
            (r.Updated? || r.Failed?) &&
            (r.Failed? ==> s' == s) &&
            (h.name !in s ==> r == Failed(TableNotFound(h.name))) &&
            (h.name in s && h.setClause == [] ==> r == Failed(NoUpdates)) &&
            (h.name in s ==>
               var us := ParseAssignments(SplitComma(h.setClause), s[h.name].columns);
               (us.Err? ==> r == Failed(us.error)) &&
               (r.Updated? <==> us.Ok? && h.setClause != [])) &&
            (r.Updated? ==>
               h.name in s && r.name == h.name &&
               var t := s[h.name];
               var us := ParseAssignments(SplitComma(h.setClause), t.columns);
               var rows := s'[h.name].rows;
               us.Ok? && h.setClause != [] &&
               s'.Keys == s.Keys && (forall k :: k in s && k != h.name ==> s'[k] == s[k]) &&
               s'[h.name] == t.(rows := rows) &&
               r.count == |Matching(t.rows, t.columns, h.condition)| &&
               |rows| == |t.rows| &&
               (forall i :: 0 <= i < |rows| ==> rows[i].id == t.rows[i].id) &&
               (forall i :: 0 <= i < |rows| && !Evaluate(t.rows[i], t.columns, h.condition) ==> rows[i] == t.rows[i]) &&
               (forall i :: 0 <= i < |rows| && Evaluate(t.rows[i], t.columns, h.condition) ==>
                  rows[i].values == ApplyAssignments(t.rows[i].values, us.value)))
  {
  }

  // ---- SAVE and LOAD ----

  /** The `.db` rule (CRT.cpp:477-479 and 560-562): a name without a dot
      gets ".db" appended. */
  function WithDefaultExtension(f: Str): (r: Str)
    ensures '.' in r
    ensures f <= r
    ensures '.' in f ==> r == f
    ensures '.' !in f ==> r == f + ".db"
  {
    if '.' in f then f else f + ".db"
  }

  /** The rule is idempotent: a name it produced is left alone. */
  lemma DefaultExtensionIdempotent(f: Str)
    ensures WithDefaultExtension(WithDefaultExtension(f)) == WithDefaultExtension(f)
  {
  }

  /** SAVE name / LOAD name: the second word with the `.db` rule applied,
      or None when there is no second word. */
  function FileArgument(command: Str): (r: Option<Str>)
    ensures r.None? <==> Scan(Scan(command).1).0 == []
    ensures r.Some? ==> '.' in r.value && Scan(Scan(command).1).0 <= r.value
    ensures r.Some? ==> r.value == WithDefaultExtension(Scan(Scan(command).1).0)
  {
    var f := Scan(Scan(command).1).0;
    if f == [] then None else Some(WithDefaultExtension(f))
  }

  /** What handleSave reports (CRT.cpp:464-540): no file name, a file that
      cannot be created, or the name it saved under. */
  function SaveCommand(command: Str, canWrite: bool): Response {
    var f := FileArgument(command);
    if f.None? then Failed(FilenameRequired)
    else if !canWrite then Failed(CannotWrite(f.value))
    else Saved(f.value)
  }

  /** handleLoad (CRT.cpp:547-649), reading from `files`, the contents of
      the files that can be opened. The store is cleared once the file is
      open, so a snapshot that ends early leaves it empty. */
  function LoadCommand(s: Store, command: Str, files: map<Str, seq<byte>>): (Response, Store)
  {
    var f := FileArgument(command);
    if f.None? then (Failed(FilenameRequired), s)
    else if f.value !in files then (Failed(CannotOpen(f.value)), s)
    else
      var d := DecodeSnapshot(files[f.value]);
      if d.None? then (Failed(MalformedSnapshot), map[])
      else (Loaded(f.value, d.value.1), d.value.0)
  }

  /** LOAD without a file name, or of a file that cannot be opened,
      changes nothing; a file that holds a snapshot replaces the whole
      store with the snapshot's tables, each under its own name. */
  lemma LoadOutcome(s: Store, command: Str, files: map<Str, seq<byte>>)
    ensures var (r, s') := LoadCommand(s, command, files);
            var f := FileArgument(command);
            (f.None? ==> r == Failed(FilenameRequired) && s' == s) &&
            (f.Some? && f.value !in files ==> r == Failed(CannotOpen(f.value)) && s' == s) &&
            (r.Failed? && r.error == MalformedSnapshot ==> s' == map[]) &&
            (r.Loaded? ==> f == Some(r.filename) && KeysMatchNames(s'))
  {
  }

  /** What SAVE writes, LOAD reads back: a file holding the tables of a
      store in the order of a walk over it loads as that store, whatever
      the store was before. */
  lemma LoadRestoresSaved(s: Store, saved: Store, keys: seq<Str>, command: Str, files: map<Str, seq<byte>>)
    requires Walk(keys, saved) && KeysMatchNames(saved) && EncodableStore(saved)
    requires FileArgument(command).Some? && FileArgument(command).value in files
    requires files[FileArgument(command).value] == EncodeSnapshot(TablesOf(saved, keys))
    ensures LoadCommand(s, command, files) == (Loaded(FileArgument(command).value, |saved|), saved)
  {
    var order := TablesOf(saved, keys);
    forall i | 0 <= i < |order|
      ensures EncodableTable(order[i])
    {
      assert keys[i] in saved;
    }
    SnapshotRoundTrip(order, []);
    LoadWalk(keys, saved);
    assert EncodeSnapshot(order) + [] == EncodeSnapshot(order);
  }

  // ---- What the handlers keep ----

  /** The last assignment to a column holds a value of the column's type. */
  lemma {:induction false} LastAssignedChecked(us: seq<Assignment>, columns: seq<Column>, j: nat)
    requires forall i :: 0 <= i < |us| ==> Checked(us[i], columns)
    requires j < |columns|
    ensures LastAssigned(us, j).Some? ==> ValidateDataType(LastAssigned(us, j).value, columns[j].typ)
  {
    if us != [] && us[|us| - 1].column != j {
      LastAssignedChecked(us[..|us| - 1], columns, j);
    }
  }

  /** Checked assignments keep a row fitting its columns. */
  lemma AssignmentsKeepFit(row: Row, columns: seq<Column>, us: seq<Assignment>)
    requires RowFits(row, columns)
    requires forall i :: 0 <= i < |us| ==> Checked(us[i], columns)
    ensures RowFits(row.(values := ApplyAssignments(row.values, us)), columns)
  {
    var vs := ApplyAssignments(row.values, us);
    forall j | 0 <= j < |columns|
      ensures ValidateDataType(vs[j], columns[j].typ)
    {
      LastAssignedChecked(us, columns, j);
    }
  }

  /** Storing a consistent table under its own name keeps the store
      consistent. */
  lemma PutKeepsConsistent(s: Store, t: Table)
    requires Consistent(s)
    requires WellFormed(t) && IdsAscending(t)
    ensures Consistent(s[t.name := t])
  {
  }

  /** CREATE keeps the store consistent. */
  lemma CreateKeepsConsistent(s: Store, h: Header)
    requires Consistent(s)
    ensures Consistent(ApplyCreate(s, h).1)
  {
    var res := ApplyCreate(s, h);
    if res.0.Created? {
      PutKeepsConsistent(s, res.1[res.0.name]);
    }
  }

  /** Appending a fitting row that carries the counter's id, and bumping
      the counter below its largest value, keeps a table consistent. */
  lemma AppendRowKeepsTable(t: Table, row: Row)
    requires WellFormed(t) && IdsAscending(t)
    requires RowFits(row, t.columns) && row.id == t.nextId && t.nextId < INT32_MAX
    ensures var t' := t.(rows := t.rows + [row], nextId := Increment(t.nextId));
            WellFormed(t') && IdsAscending(t')
  {
    var rows := t.rows + [row];
    forall i, j | 0 <= i < j < |rows|
      ensures rows[i].id < rows[j].id
    {
      assert rows[i] == t.rows[i];
      if j < |t.rows| {
        assert rows[j] == t.rows[j];
      } else {
        assert t.rows[i] in t.rows;
      }
    }
  }

  /** INSERT keeps the store consistent while the counter has not reached
      the largest int: the new row fits and its id is above every other. */
  lemma InsertKeepsConsistent(s: Store, h: Header)
    requires Consistent(s)
    requires h.name in s ==> s[h.name].nextId < INT32_MAX
    ensures Consistent(ApplyInsert(s, h).1)
  {
    if h.name in s && HasParens(h.rest) {
      var t := s[h.name];
      var vs := InsertValues(h.rest);
      var row := Row(vs, t.nextId);
      var bumped := t.(nextId := Increment(t.nextId));
      if RowFits(row, t.columns) {
        AppendRowKeepsTable(t, row);
        PutKeepsConsistent(s, bumped.(rows := t.rows + [row]));
      } else {
        PutKeepsConsistent(s, bumped);
      }
    }
  }

  /** The id an INSERT hands out is new to its table, and the counter moves
      past it. */
  lemma InsertedIdIsNew(s: Store, h: Header)
    requires AllIdsAscending(s)
    ensures var res := ApplyInsert(s, h);
            res.0.Inserted? ==>
              (forall r :: r in s[h.name].rows ==> r.id != res.0.id) &&
              (res.0.id < INT32_MAX ==> res.1[h.name].nextId as int == res.0.id as int + 1)
  {
  }

  /** Keeping only some of a table's rows, in order, keeps it consistent. */
  lemma FilterKeepsTable(t: Table, condition: Str, verdict: bool)
    requires WellFormed(t) && IdsAscending(t)
    ensures var t' := t.(rows := Filter(t.rows, t.columns, condition, verdict));
            WellFormed(t') && IdsAscending(t')
  {
    FilterAscending(t.rows, t.columns, condition, verdict);
    FilterMembers(t.rows, t.columns, condition, verdict);
  }

  /** DELETE keeps the store consistent and leaves the counter alone. */
  lemma DeleteKeepsConsistent(s: Store, h: Header)
    requires Consistent(s)
    ensures Consistent(ApplyDelete(s, h).1)
    ensures h.name in s ==> ApplyDelete(s, h).1[h.name].nextId == s[h.name].nextId
  {
    if h.name in s {
      var t := s[h.name];
      FilterKeepsTable(t, h.rest, false);
      PutKeepsConsistent(s, t.(rows := NonMatching(t.rows, t.columns, h.rest)));
    }
  }

  /** Rewriting the rows UPDATE matches with checked assignments keeps a
      table consistent. */
  lemma UpdateRowsKeepTable(t: Table, condition: Str, us: seq<Assignment>)
    requires WellFormed(t) && IdsAscending(t)
    requires forall i :: 0 <= i < |us| ==> Checked(us[i], t.columns)
    ensures var t' := t.(rows := UpdateRows(t.rows, t.columns, condition, us));
            WellFormed(t') && IdsAscending(t')
  {
    var rows := UpdateRows(t.rows, t.columns, condition, us);
    forall i | 0 <= i < |rows|
      ensures RowFits(rows[i], t.columns)
    {
      assert t.rows[i] in t.rows;
      if Evaluate(t.rows[i], t.columns, condition) {
        AssignmentsKeepFit(t.rows[i], t.columns, us);
      }
    }
    forall r | r in rows
      ensures r.id < t.nextId
    {
      var i :| 0 <= i < |rows| && rows[i] == r;
      assert t.rows[i] in t.rows;
    }
  }

  /** UPDATE keeps the store consistent and leaves the counter alone. */
  lemma UpdateKeepsConsistent(s: Store, h: UpdateParts)
    requires Consistent(s)
    ensures Consistent(ApplyUpdate(s, h).1)
    ensures h.name in s ==> ApplyUpdate(s, h).1[h.name].nextId == s[h.name].nextId
  {
    var res := ApplyUpdate(s, h);
    if h.name in s && res.0.Updated? {
      var t := s[h.name];
      var us := ParseAssignments(SplitComma(h.setClause), t.columns).value;
      UpdateRowsKeepTable(t, h.condition, us);
      PutKeepsConsistent(s, t.(rows := UpdateRows(t.rows, t.columns, h.condition, us)));
    }
  }
}
