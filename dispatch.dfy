/** What the main loop does with one input line (CRT.cpp:676-707): the line
    is upper-cased (not trimmed) and tested against the command words in a
    fixed order; the first test that passes picks the handler. */
module Dispatch {
  import opened Wrappers
  import opened Strings
  import opened Tables
  import opened Codec
  import opened Commands

  /** Which branch of the main loop a line takes. */
  datatype Kind =
    | Blank
    | Exit
    | Help
    | CreateTable
    | InsertInto
    | Select
    | Update
    | DeleteFrom
    | Save
    | Load
    | Unknown

  /** `upperCmd.find(word) == 0`: the line starts with the word. */
  predicate StartsWith(line: Str, word: Str) {
    word <= line
  }

  /** The branch taken (CRT.cpp:680-705). Only an exactly empty line is
      skipped; EXIT and HELP must be the whole line; the other commands are
      recognised by their first words. */
  function Classify(line: Str): Kind {
    if line == [] then Blank
    else
      var upper := ToUpper(line);
      if upper == "EXIT" then Exit
      else if upper == "HELP" then Help
      else if StartsWith(upper, "CREATE TABLE") then CreateTable
      else if StartsWith(upper, "INSERT INTO") then InsertInto
      else if StartsWith(upper, "SELECT") then Select
      else if StartsWith(upper, "UPDATE") then Update
      else if StartsWith(upper, "DELETE FROM") then DeleteFrom
      else if StartsWith(upper, "SAVE") then Save
      else if StartsWith(upper, "LOAD") then Load
      else Unknown
  }

  /** Letter case never changes the branch a line takes. */
  lemma ClassifyIgnoresCase(line: Str)
    ensures Classify(ToUpper(line)) == Classify(line)
  {
    ToUpperIdempotent(line);
  }

  /** Only the empty line is skipped. */
  lemma OnlyEmptyLineIsBlank(line: Str)
    ensures Classify(line) == Blank <==> line == []
  {
  }

  /** EXIT ends the loop only when it is the whole line, in any case:
      "EXIT " with a trailing blank is an unknown command. */
  lemma ExitIsWholeLine(line: Str)
    ensures Classify(line) == Exit <==> line != [] && ToUpper(line) == "EXIT"
  {
  }

  /** The line is not trimmed: one that starts with white space, a
      white-space-only line included, is an unknown command. */
  lemma LeadingSpaceIsUnknown(line: Str)
    requires line != [] && IsSpace(line[0])
    ensures Classify(line) == Unknown
  {
    var upper := ToUpper(line);
    assert IsSpace(upper[0]);
  }

  /** The store and response of every branch but SAVE, which also depends
      on the order the tables are written in and on whether the file can
      be created. */
  function Step(s: Store, line: Str, files: map<Str, seq<byte>>): (Response, Store) {
    Run(Classify(line), s, line, files)
  }

  /** What the branch `kind` does with the line. */
  function Run(kind: Kind, s: Store, line: Str, files: map<Str, seq<byte>>): (Response, Store) {
    match kind
    case Blank => (Nothing, s)
    case Exit => (Goodbye, s)
    case Help => (HelpShown, s)
    case CreateTable => CreateCommand(s, line)
    case InsertInto => InsertCommand(s, line)
    case Select => (SelectCommand(s, line), s)
    case Update => UpdateCommand(s, line)
    case DeleteFrom => DeleteCommand(s, line)
    case Save => (Nothing, s)
    case Load => LoadCommand(s, line, files)
    case Unknown => (Failed(UnknownCommand), s)
  }

  /** Every branch but LOAD keeps the store consistent, INSERT as long as
      the table's counter is below the largest int; LOAD gives a store with
      each table under its own name. */
  lemma RunKeepsConsistent(kind: Kind, s: Store, line: Str, files: map<Str, seq<byte>>)
    requires Consistent(s)
    requires kind == InsertInto && InsertHeader(line).name in s ==>
               s[InsertHeader(line).name].nextId < INT32_MAX
    ensures kind != Load ==> Consistent(Run(kind, s, line, files).1)
    ensures kind == Load ==> KeysMatchNames(Run(kind, s, line, files).1)
  {
    match kind
    case CreateTable => CreateKeepsConsistent(s, CreateHeader(line));
    case InsertInto => InsertKeepsConsistent(s, InsertHeader(line));
    case Update => UpdateKeepsConsistent(s, UpdateHeader(line));
    case DeleteFrom => DeleteKeepsConsistent(s, DeleteHeader(line));
    case _ =>
  }

  /** The same for the branch the line takes. */
  lemma StepKeepsConsistent(s: Store, line: Str, files: map<Str, seq<byte>>)
    requires Consistent(s)
    requires Classify(line) == InsertInto && InsertHeader(line).name in s ==>
               s[InsertHeader(line).name].nextId < INT32_MAX
    ensures Classify(line) != Load ==> Consistent(Step(s, line, files).1)
    ensures Classify(line) == Load ==> KeysMatchNames(Step(s, line, files).1)
  {
    RunKeepsConsistent(Classify(line), s, line, files);
  }
}
