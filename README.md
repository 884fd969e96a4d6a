# Mini database engine, modelled in Dafny

A model of the in-memory SQL-like engine of `CRT.cpp`: a map from table
names to tables of typed columns (`INT` or `TEXT`) and rows with
auto-incremented ids. The model covers the command handlers and the main
loop that dispatches lines to them:

- CREATE TABLE
- INSERT INTO
- SELECT * FROM ... [WHERE ...]
- UPDATE ... SET ... [WHERE ...]
- DELETE FROM ... [WHERE ...]
- SAVE and LOAD of a binary snapshot

It also covers the value validator and the single-predicate WHERE
evaluator. It states what each command does to the store and what it
reports, and proves the properties the engine relies on.

Modules, one per part of the program:

| file | module | what it holds |
|---|---|---|
| `wrappers.dfy` | `Wrappers` | `Option` and `Result` |
| `strings.dfy` | `Strings` | byte strings and the text helpers: `toUpper`, `trim`, `>>`, `getline`, comma splitting, quote stripping, `find` |
| `validator.dfy` | `Validator` | `isNumber`, `validateDataType` and the reading of an all-digit string as a number |
| `tables.dfy` | `Tables` | `Column`, `Row`, `Table`, the store, the 32-bit `next_id`, and the invariants the commands keep |
| `condition.dfy` | `Condition` | `evaluateCondition`: what the regular-expression search finds and what the found predicate means for a row |
| `codec.dfy` | `Codec` | the snapshot format, with a decoder that is the inverse of the encoder |
| `commands.dfy` | `Commands` | each handler as a pure function from the store and the line to a response and a new store, plus the lemmas about it |
| `dispatch.dfy` | `Dispatch` | the prefix tests of the main loop |
| `handlers.dfy` | `Handlers` | the handlers with their loops, as methods proved equal to those functions |
| `shell.dfy` | `Shell` | the program state (`database` and the files on disk) as a class; one pass of the main loop is its `Execute` method |

Each handler is specified twice:

- `Commands.CreateCommand` and its siblings are pure functions. Each reads
  the line and passes the parsed header to `ApplyCreate` (and so on). The
  `...Outcome` lemmas state what the handler does for any header.
- `Handlers.Create` and its siblings run the source's loops and are proved
  to return exactly what the function gives.

Printed messages become `Response` values, and each error message
becomes an `Error` value. Messages that differ only in wording share one
constructor:

- `MissingParentheses` stands for both CRT.cpp:145 and CRT.cpp:213.
- `TableNotFound` stands for CRT.cpp:202, 279, 337 and 389.

The program's surroundings become parameters:

- The files on disk are a map from file name to contents.
- Whether SAVE can create its file is a boolean parameter.

## Model

| member | source | states |
|---|---|---|
| Strings.UpperChar | CRT.cpp:36 | `::toupper` in the C locale: a lower-case letter becomes the upper-case letter 32 code points below it, every other character is kept; the result is never a lower-case letter and is white space exactly when the input is |
| Strings.ToUpper | CRT.cpp:34-38 | same length, every character upper-cased in place |
| Strings.ToUpperIdempotent | CRT.cpp:34-38 | upper-casing twice is upper-casing once |
| Strings.LeadingSpace | CRT.cpp:41-44 | the white-space run at the front: all white, and the next character (if any) is not |
| Strings.TrailingSpace | CRT.cpp:46-49 | the white-space run at the back, as above |
| Strings.Trim | CRT.cpp:40-52 | empty exactly when the input is all white space; otherwise exactly the input with its leading and trailing white-space runs cut off, starting and ending with non-white characters |
| Strings.TrimIdempotent | CRT.cpp:40-52 | trimming twice is trimming once |
| Strings.TrimSurrounded | CRT.cpp:40-52 | a string with non-white ends, padded with any white space on both sides, trims back to itself |
| Strings.TokenLength | CRT.cpp:123-125 | the longest white-free prefix |
| Strings.Scan | CRT.cpp:121-125 | `ss >> word`: only white space is skipped before the word; the word has no white space, is empty exactly when only white space is left, and what stays in the stream starts with white space or is empty |
| Strings.ScanWord | CRT.cpp:121-125 | white space, a word and then white space or nothing: the read gives exactly that word and leaves the rest |
| Strings.TwoWords | CRT.cpp:157-163 | two words with white space around and between them: trimming keeps the two words and the space between, and two reads give the two words |
| Strings.ScanTwoWords | CRT.cpp:160-163 | two words separated by white space are read one after the other |
| Strings.IndexOf | CRT.cpp:141 | the first position of a character, or the length when it is absent |
| Strings.Line | CRT.cpp:141 | `getline`: a prefix of the input with no newline, stopping exactly at the first newline; the whole input when it has none |
| Strings.SplitAll | CRT.cpp:156 | splitting at every comma gives at least one piece, and no piece holds a comma |
| Strings.JoinSplitAll | CRT.cpp:156 | joining the pieces with commas restores the string |
| Strings.SplitComma | CRT.cpp:156 | the `getline(..., ',')` loop: its pieces hold no comma, and it yields nothing exactly when the input is empty |
| Strings.SplitCommaDropsEmptyTail | CRT.cpp:156 | the loop's pieces are exactly the comma-separated pieces, minus an empty last one |
| Strings.RemoveParens | CRT.cpp:149-150 | a character remains exactly when it was present and is not a parenthesis; a string without parentheses is unchanged |
| Strings.RemoveParensAppend | CRT.cpp:149-150 | removing parentheses from two joined strings is removing them from each and joining |
| Strings.StripQuotes | CRT.cpp:229-232 | a value quoted at both ends, of length at least two, loses both quotes; a lone quote becomes empty; any other value is unchanged |
| Strings.StripQuotesOfQuoted | CRT.cpp:229-232 | quoting a string and stripping the quotes gives it back |
| Strings.Find | CRT.cpp:376 | `std::string::find`: the first occurrence at or after the start, or none at all |
| Validator.ValidateDataTypeExamples | CRT.cpp:54-66 | INT refuses "12a", "-5", "" and " 7" and accepts "007"; TEXT accepts everything |
| Validator.IsNumber | CRT.cpp:54-57 | `isNumber`: non-empty and every character a decimal digit |
| Validator.ValidateDataType | CRT.cpp:60-66 | an INT column takes only numbers; any other type takes every string |
| Validator.NumeralValue | CRT.cpp:103-109 | `std::stoi` on a digit string, in unbounded arithmetic: the value is zero exactly when every digit is 0 |
| Validator.Decimal | CRT.cpp:54-57 | the decimal writing of a number is a non-empty digit string without a leading zero |
| Validator.NumeralValueOfDecimal | CRT.cpp:103-109 | every number, written in decimal, is an INT value and reads back (as `stoi` would) as that number |
| Validator.LeadingZeroIgnored | CRT.cpp:103-109 | a leading zero does not change the value the orderings compare |
| Tables.Increment | CRT.cpp:221 | `next_id++` adds one below the largest int and wraps at it |
| Condition.RunEnd | CRT.cpp:72 | the greedy repetition of one character class: a maximal run |
| Condition.RunEndAt | CRT.cpp:72 | a maximal run is determined by where it starts |
| Condition.MatchAt | CRT.cpp:72-75 | a match of the expression at a position gives a non-empty word column, operator run and non-blank literal |
| Condition.Search | CRT.cpp:75 | `regex_search` gives a well-formed predicate |
| Condition.SearchLeftmost | CRT.cpp:75 | `regex_search`: the match at the leftmost position, at or after the start, where the expression matches; none exactly when it matches nowhere |
| Condition.ParseCondition | CRT.cpp:72-78 | the predicate found in a WHERE text is well formed |
| Condition.ParseSpaced | CRT.cpp:72-78 | `column op literal` with single blanks is read back as exactly those three parts |
| Condition.DoubleEqualsIsOneOperator | CRT.cpp:72-78 | "a==1" carries the operator "==" |
| Condition.ColumnIndex | CRT.cpp:86-92 | the index of the first column with the name, or none when no column has it |
| Condition.FindColumn | CRT.cpp:86-94 | the search loop returns -1 exactly when no column has the name, and otherwise the first such index |
| Condition.Compare | CRT.cpp:98-110 | each of `>`, `<`, `>=`, `<=` holds exactly when both sides are numbers and their values are so ordered; an unknown operator is false |
| Condition.EvalPredicate | CRT.cpp:80-113 | true only on a found column; `=` and `!=` compare the stored text with the unquoted literal; an ordering holds exactly when both are numbers ordered that way |
| Condition.Evaluate | CRT.cpp:69-114 | the empty condition holds for every row; a condition without a predicate holds for none; otherwise the found predicate decides |
| Condition.NotEqualsIsComplement | CRT.cpp:98-101 | on a found column `!=` holds exactly where `=` fails |
| Condition.OrderingsOnNumbers | CRT.cpp:102-109 | on numbers `<` is the complement of `>=`, and `>=` is `>` or equal value |
| Condition.EvaluateCondition | CRT.cpp:69-114 | the evaluator with its column-search loop gives the same verdict as `Evaluate` |
| Codec.ToLE | CRT.cpp:489 | a number written in the given number of bytes |
| Codec.FromLE | CRT.cpp:575 | the number the bytes stand for fits their width |
| Codec.FromLEOfToLE | CRT.cpp:489-575 | writing a number that fits and reading it back gives the number |
| Codec.EncodeSize | CRT.cpp:489 | a size field is eight bytes |
| Codec.DecodeSize | CRT.cpp:575 | reading a size needs eight bytes and gives a value below 2^64 |
| Codec.SizeRoundTrip | CRT.cpp:487-575 | a size below 2^64 reads back, with what follows left as it was |
| Codec.EncodeInt | CRT.cpp:501 | an int field is four bytes |
| Codec.DecodeInt | CRT.cpp:588 | reading an int needs four bytes |
| Codec.IntRoundTrip | CRT.cpp:501-588 | every 32-bit int reads back in two's complement |
| Codec.StrBytes | CRT.cpp:498 | a string's bytes, one per character, with the same codes |
| Codec.BytesStr | CRT.cpp:585 | the string a run of bytes spells |
| Codec.DecodeStr | CRT.cpp:583-585 | reading a string consumes its length field and its bytes |
| Codec.StrRoundTrip | CRT.cpp:496-585 | a string shorter than 2^64 reads back |
| Codec.DecodeList | CRT.cpp:578-641 | reading n items gives exactly n items |
| Codec.EncodeListAppend | CRT.cpp:492-537 | writing one more item appends its encoding |
| Codec.ListRoundTrip | CRT.cpp:492-641 | items that each read back make a list that reads back |
| Codec.ColumnRoundTrip | CRT.cpp:507-610 | a column (name, type) reads back |
| Codec.RowRoundTrip | CRT.cpp:523-638 | a row (id, values) reads back |
| Codec.TableRoundTrip | CRT.cpp:492-640 | a table (name, next_id, columns, rows) reads back |
| Codec.LoadInto | CRT.cpp:640 | `database[table.name] = table` in turn stores each table under its own name |
| Codec.LoadIntoAppend | CRT.cpp:640 | loading one more table overwrites its name's entry |
| Codec.LoadIntoKeys | CRT.cpp:640 | loading tables taken from a store under distinct keys adds exactly those keys with the store's tables |
| Codec.LoadWalk | CRT.cpp:492-640 | loading the tables of a store in the order of any walk over it rebuilds the store |
| Codec.EncodeTable | CRT.cpp:496-536 | a table as written: name, next id, the columns, then the rows; its inverse is DecodeTable (TableRoundTrip) |
| Codec.DecodeTable | CRT.cpp:583-640 | a table as read back, in the order it was written |
| Codec.EncodeSnapshot | CRT.cpp:487-537 | the table count, then each table in the given order |
| Codec.DecodeSnapshot | CRT.cpp:570-641 | a snapshot read back stores each table under its own name |
| Codec.SnapshotCount | CRT.cpp:488-575 | the announced count reads back first |
| Codec.SnapshotRoundTrip | CRT.cpp:487-641 | reading back what was written gives the tables written and their count |
| Commands.WhereCondition | CRT.cpp:272-276 | when the next word is WHERE in any letter case, the rest of the line after it, trimmed; otherwise no condition; the result is empty or trimmed |
| Commands.WhereClause | CRT.cpp:272-276 | white space, WHERE in any letter case, and a one-line condition give that condition, trimmed |
| Commands.SplitWhere | CRT.cpp:376-386 | the UPDATE rest is split at the first " WHERE ", both sides trimmed; without one there is no condition |
| Commands.SplitWhereNeedsCapitalWhere | CRT.cpp:376-386 | a rest without a capital W (a lower-case "where") is all SET list |
| Commands.SplitWhereAtFirstWhere | CRT.cpp:376-381 | the first " WHERE " splits the rest, and all that follows, a second " WHERE " included, is the condition |
| Commands.SplitWhereAtSeparator | CRT.cpp:376-381 | when no " WHERE " starts inside the SET list, the rest splits right after it, whatever capitals the list holds |
| Commands.ParseEach | CRT.cpp:156-177 | the loop over comma-separated fields: an accepted list holds one value per field |
| Commands.ParseEachAccepted | CRT.cpp:156-177 | the list is accepted exactly when every field is |
| Commands.ParseEachValues | CRT.cpp:400-439 | an accepted list holds, in order, what each field gives on its own |
| Commands.ParseEachFirstFailure | CRT.cpp:400-439 | a refused list reports the error of its first refused field, every field before it being accepted |
| Commands.ParseEachFirstError | CRT.cpp:164-173 | once a prefix is refused the whole list is refused the same way: the loop returns at the first refusal |
| Commands.Present | CRT.cpp:156-177 | the columns kept from the definitions: at most one per definition |
| Commands.PresentNone | CRT.cpp:179-181 | no column kept means every definition was blank |
| Commands.PresentAll | CRT.cpp:169-175 | what holds of every column read holds of every column kept |
| Commands.ParseColumnDef | CRT.cpp:157-175 | a blank definition is skipped exactly when it trims to nothing; an accepted one has a name and an INT or TEXT type |
| Commands.ColumnDefCases | CRT.cpp:157-175 | a non-blank definition is read as two words: without both it is refused whole; a type other than INT or TEXT in any case is refused by its upper-cased name; otherwise the column has the first word as name and the upper-cased type |
| Commands.ColumnDefOf | CRT.cpp:157-175 | `name type` with any white space gives that column, its type upper-cased, when the type is INT or TEXT in any case, and is refused by type otherwise |
| Commands.ColumnDefWithoutType | CRT.cpp:162-166 | a lone name is refused as an invalid definition |
| Commands.ParseColumnDefs | CRT.cpp:156-177 | at most one column per definition, each INT or TEXT; no column at all only when every definition is blank |
| Commands.ColumnDefsMeaning | CRT.cpp:156-177 | the list is accepted exactly when every definition is, and then gives each definition's column in order, blanks giving none; otherwise the error of the first refused definition |
| Commands.FirstInvalid | CRT.cpp:245-250 | every value before the index passes its column's type, and the value at it fails |
| Commands.SplitAssignment | CRT.cpp:401-415 | refused exactly when the trimmed item has no '='; otherwise split at its first '=', the name trimmed and the value trimmed and unquoted |
| Commands.SplitAssignmentOf | CRT.cpp:401-415 | `name=value` gives the trimmed name and the trimmed, unquoted value, even when the value holds more '=' signs |
| Commands.ParseAssignment | CRT.cpp:401-438 | an item without '=' is an invalid SET clause; an accepted one names an existing column and a value of its type |
| Commands.AssignmentCases | CRT.cpp:401-438 | an item with '=' naming a missing column is refused with the name; a value the column's type rejects is refused with value and column; otherwise it assigns the value to that column's position |
| Commands.ParseAssignments | CRT.cpp:400-439 | one checked assignment per item |
| Commands.AssignmentsMeaning | CRT.cpp:400-439 | the SET list is accepted exactly when every item is, and then assigns what each item assigns, in order; otherwise the error of the first refused item |
| Commands.ApplyAssignments | CRT.cpp:450-452 | each value becomes the last value assigned to its column, or stays |
| Commands.Filter | CRT.cpp:303-312 | filtering keeps at most the rows it is given |
| Commands.FilterMembers | CRT.cpp:303-312 | a row is kept exactly when it is one of the rows and gets the verdict |
| Commands.FilterAscending | CRT.cpp:303-312 | the order is kept, so ascending ids stay ascending |
| Commands.FilterPartition | CRT.cpp:350-353 | the rows matched and the rows kept add up to all the rows |
| Commands.EmptyConditionMatchesAll | CRT.cpp:344-346 | with no condition every row matches and none is kept |
| Commands.SkipWords | CRT.cpp:121-125 | what is left after some `>>` reads: a suffix of the line |
| Commands.CreateHeader | CRT.cpp:121-141 | CREATE TABLE: the third word is the name, the rest of the line follows |
| Commands.InsertHeader | CRT.cpp:194-209 | INSERT INTO: the third word is the name; the rest of the line after one more word follows |
| Commands.SelectHeader | CRT.cpp:264-276 | SELECT * FROM: the fourth word is the name, then the optional WHERE condition |
| Commands.DeleteHeader | CRT.cpp:323-334 | DELETE FROM: the third word is the name, then the optional WHERE condition |
| Commands.UpdateHeader | CRT.cpp:366-386 | UPDATE: the second word is the name; the rest of the line after one more word is split at the first " WHERE " |
| Commands.InsertValues | CRT.cpp:222-235 | the values between the parentheses, each trimmed and unquoted |
| Commands.InsertRow | CRT.cpp:237-252 | the row with the counter as id, or the count or type error; stated by InsertRowFits |
| Commands.ApplyCreate | CRT.cpp:127-189 | CREATE on a read header; stated by CreateOutcome |
| Commands.CreateCommand | CRT.cpp:119-189 | handleCreate: read the header, then ApplyCreate |
| Commands.ApplyInsert | CRT.cpp:200-259 | INSERT on a read header; stated by InsertOutcome |
| Commands.InsertCommand | CRT.cpp:192-259 | handleInsert: read the header, then ApplyInsert |
| Commands.ApplySelect | CRT.cpp:278-318 | SELECT on a read header; stated by SelectOutcome |
| Commands.SelectCommand | CRT.cpp:262-318 | handleSelect: read the header, then ApplySelect |
| Commands.ApplyDelete | CRT.cpp:336-361 | DELETE on a read header; stated by DeleteOutcome |
| Commands.DeleteCommand | CRT.cpp:321-361 | handleDelete: read the header, then ApplyDelete |
| Commands.ApplyUpdate | CRT.cpp:388-461 | UPDATE on the read parts; stated by UpdateOutcome |
| Commands.UpdateCommand | CRT.cpp:364-461 | handleUpdate: read the parts, then ApplyUpdate |
| Commands.LoadCommand | CRT.cpp:547-649 | handleLoad on the files given; stated by LoadOutcome and LoadRestoresSaved |
| Commands.UpdateRows | CRT.cpp:447-455 | the same number of rows, same ids and widths; rejected rows unchanged; matched rows get the assignments |
| Commands.CreateOutcome | CRT.cpp:119-189 | no name is refused first, then an existing name, then missing parentheses, then the first bad definition, then an empty column list; otherwise exactly one new table is added under its name, with the parsed columns, no rows and the counter at 1; a refusal leaves the store alone |
| Commands.InsertRowFits | CRT.cpp:237-252 | the row is built exactly when the values fit the columns, with the counter as its id |
| Commands.InsertOutcome | CRT.cpp:192-259 | a missing table or missing parentheses change nothing; otherwise the counter is bumped, and the row is appended with the old counter as id exactly when it fits |
| Commands.SelectOutcome | CRT.cpp:262-318 | not found exactly when the table is missing, empty exactly when it has no rows; otherwise exactly the rows the condition holds for, in order, and all rows without a condition |
| Commands.DeleteOutcome | CRT.cpp:321-361 | a missing table changes nothing; otherwise exactly the rows the condition rejects are kept, the count is the number matched, and nothing else changes |
| Commands.UpdateOutcome | CRT.cpp:364-461 | a missing table, an empty SET list or the first bad SET item is refused and leaves the store alone; UPDATE succeeds exactly when the table exists and every item is accepted; it then rewrites the matched rows in place, keeps ids and order, and reports the number matched |
| Commands.WithDefaultExtension | CRT.cpp:477-479 | a name without a dot gets ".db" appended; a name with one is kept |
| Commands.DefaultExtensionIdempotent | CRT.cpp:560-562 | applying the `.db` rule twice is applying it once |
| Commands.FileArgument | CRT.cpp:466-479 | no file name exactly when the line has no second word; otherwise the second word with the `.db` rule applied |
| Commands.SaveCommand | CRT.cpp:464-544 | what SAVE reports: no file name, a file that cannot be created, or the name saved under |
| Commands.LoadOutcome | CRT.cpp:547-649 | no name or an unopenable file changes nothing; a malformed file leaves the store empty; a loaded store holds each table under its name |
| Commands.LoadRestoresSaved | CRT.cpp:464-649 | loading the file SAVE wrote gives back exactly the saved store and its table count, whatever the store held before |
| Commands.LastAssignedChecked | CRT.cpp:431-438 | the value last assigned to a column passes the column's type |
| Commands.AssignmentsKeepFit | CRT.cpp:431-452 | checked assignments keep a fitting row fitting |
| Commands.PutKeepsConsistent | CRT.cpp:184 | storing a consistent table under its own name keeps the store consistent |
| Commands.CreateKeepsConsistent | CRT.cpp:137-184 | CREATE keeps the store consistent |
| Commands.AppendRowKeepsTable | CRT.cpp:220-254 | appending a fitting row with the counter's id, below the largest int, keeps a table consistent |
| Commands.InsertKeepsConsistent | CRT.cpp:192-259 | INSERT keeps the store consistent while the counter is below the largest int |
| Commands.InsertedIdIsNew | CRT.cpp:221 | the id INSERT hands out is new to its table, and the counter moves past it |
| Commands.FilterKeepsTable | CRT.cpp:350-354 | keeping some rows in order keeps a table consistent |
| Commands.DeleteKeepsConsistent | CRT.cpp:321-361 | DELETE keeps the store consistent and the counter unchanged |
| Commands.UpdateRowsKeepTable | CRT.cpp:446-455 | rewriting the matched rows with checked assignments keeps a table consistent |
| Commands.UpdateKeepsConsistent | CRT.cpp:364-461 | UPDATE keeps the store consistent and the counter unchanged |
| Dispatch.ClassifyIgnoresCase | CRT.cpp:682-705 | letter case never changes the branch a line takes |
| Dispatch.OnlyEmptyLineIsBlank | CRT.cpp:680 | only the empty line is skipped |
| Dispatch.ExitIsWholeLine | CRT.cpp:685 | EXIT ends the loop exactly when it is the whole line, in any case |
| Dispatch.LeadingSpaceIsUnknown | CRT.cpp:680-705 | a line that starts with white space is an unknown command |
| Dispatch.RunKeepsConsistent | CRT.cpp:685-705 | every branch but LOAD keeps the store consistent (INSERT below the largest counter); LOAD gives each table under its own name |
| Dispatch.StepKeepsConsistent | CRT.cpp:676-707 | the same for the branch a line takes |
| Dispatch.Classify | CRT.cpp:680-705 | the branch a line takes: only the empty line is skipped, EXIT and HELP are whole lines, the rest are prefix tests on the upper-cased line in a fixed order |
| Dispatch.Run | CRT.cpp:685-705 | the response and store of the handler of a branch; stated by RunKeepsConsistent |
| Dispatch.Step | CRT.cpp:676-707 | one line: its branch, then that handler |
| Handlers.ReadColumnDefs | CRT.cpp:156-177 | the column loop gives the columns (or error) of the definitions |
| Handlers.ReadValues | CRT.cpp:222-235 | the value loop gives the cleaned values in order |
| Handlers.CleanFields | CRT.cpp:226-235 | one value per field, each the field trimmed and with its surrounding quotes removed, in field order |
| Handlers.BuildRow | CRT.cpp:237-252 | the checks and the copy loop give the row exactly when the values fit |
| Handlers.SelectRows | CRT.cpp:302-312 | the display loop shows the matching rows in order |
| Handlers.KeepRows | CRT.cpp:350-354 | `remove_if` keeps the rows the condition rejects, in order |
| Handlers.ReadAssignments | CRT.cpp:400-439 | the SET loop gives the checked assignments or the first error |
| Handlers.Assign | CRT.cpp:450-452 | the assignment loop gives each value its last assignment |
| Handlers.UpdateMatching | CRT.cpp:447-455 | the row loop rewrites the matched rows and counts them |
| Handlers.WalkOrder | CRT.cpp:492 | the walk meets every table exactly once |
| Handlers.WriteTables | CRT.cpp:492-537 | the table loop writes each table in walk order |
| Handlers.WriteSnapshot | CRT.cpp:487-537 | the bytes written are the count and the tables in walk order, and they read back as the store |
| Handlers.Create | CRT.cpp:119-189 | handleCreate returns what `CreateCommand` gives |
| Handlers.Insert | CRT.cpp:192-259 | handleInsert returns what `InsertCommand` gives |
| Handlers.Select | CRT.cpp:262-318 | handleSelect returns what `SelectCommand` gives |
| Handlers.Delete | CRT.cpp:321-361 | handleDelete returns what `DeleteCommand` gives |
| Handlers.DeleteRows | CRT.cpp:336-360 | DELETE once the header is read returns what `ApplyDelete` gives |
| Handlers.Update | CRT.cpp:364-461 | handleUpdate returns what `UpdateCommand` gives |
| Handlers.Save | CRT.cpp:464-544 | responds as SaveCommand says; writes exactly when it saves, under the saved name; the bytes are the snapshot of the store in some walk order, and they read back as the store |
| Handlers.ReadTables | CRT.cpp:578-641 | the table loop succeeds exactly when all tables can be read, and stores each under its name |
| Handlers.Load | CRT.cpp:547-649 | handleLoad returns what `LoadCommand` gives |
| Shell.Database.constructor | CRT.cpp:31 | the store starts empty, with the given files |
| Shell.Database.SaveFile | CRT.cpp:464-544 | SAVE on the program state: responds as SaveCommand says; only the named file changes, to the snapshot of the store |
| Shell.Database.Execute | CRT.cpp:676-707 | one pass of the main loop: every branch but SAVE moves the store as `Step` says and writes no file; SAVE leaves the store alone, responds as SaveCommand says, changes no file unless it saves, and then replaces only the named file with the snapshot of the store, which reads back as the store |

## Left out

- Console output is left out: the table layout, the `setw` padding, the row counts printed, the help text and the greeting. The responses carry what would be printed.
- Reading lines from standard input is left out. `Execute` takes one line; the loop around it and its end at EXIT are not modelled.
- The file system is a parameter. The files that can be opened are a map from name to contents. Whether SAVE's `ofstream` opens is a boolean. A write failing part-way is not modelled.
- The C++ exceptions caught by each handler are not modelled. These are `bad_alloc` from a huge length in a snapshot, and `out_of_range` from `stoi` on a numeral beyond the int range.
- Condition.Compare: orderings compare numerals as unbounded numbers. In the source, `std::stoi` throws on a numeral beyond 2^31 - 1, and the handler then prints an error. The consequences of that exception are not modelled:
  - INSERT and UPDATE accept a numeral such as 99999999999 into an INT column, because the validator checks digits only. The model accepts it too.
  - A later WHERE ordering on that value throws in the middle of the handler; the model compares it as a number.
  - UPDATE then keeps the assignments already made to the earlier rows (CRT.cpp:448-455); the model updates all matched rows.
  - DELETE's `remove_if` is cut short, leaving the vector in an unspecified state; the model keeps the rejected rows.
  - SELECT has already printed the rows before it; the model returns all matching rows.
- Strings.Trim: the source steps an iterator before the start of an empty string, which is undefined. The model trims the empty string to itself.
- Condition.EvalPredicate: a row with fewer values than columns can only come from a hand-made snapshot. The source reads it out of range; the model makes the predicate false.
- Commands.ApplyAssignments: for such a short row, the model skips an assignment out of range. The source writes out of range.
- Commands.LoadOutcome: a snapshot that ends early, or holds a length too large to read, leaves the store empty and reports `MalformedSnapshot`. The source reads past the end into uninitialised variables, or throws part-way and keeps the tables read so far.
- Handlers.WalkOrder: the order of `unordered_map` iteration is left open. Any walk meeting every key once is allowed. The save and load properties hold for every such order.
- Handlers.Save: the column, row and value loops inside the table loop are folded into `EncodeTable`. They are modelled as a function, not as nested loops.
- Handlers.ReadTables: it takes the table decoder as a parameter, and `Load` passes `DecodeTable`. The column, row and value loops are folded into `DecodeTable`.
- Handlers.KeepRows: `std::remove_if` followed by `erase` works in place on the vector. The model builds the kept rows as a new sequence; order and contents agree.
- Handlers.UpdateMatching: `updatedCount` is an `int` in the source. The model counts with an unbounded `nat`, since a table cannot hold 2^31 rows in practice.
- Commands.InsertKeepsConsistent: consistency is proved while the counter is below the largest int. At the largest int, `next_id++` overflows, which is undefined in C++. The model wraps it, and ids then stop ascending.
- Main loop: the line is upper-cased but not trimmed before the prefix tests. So " SELECT ..." and a line of blanks are unknown commands. The model follows the code, not the description of a trimmed line.
