/** The running program: the global table map (CRT.cpp:31) and the files
    on disk as the state of one object, and one pass of the main loop
    (CRT.cpp:676-707) as the method that changes it. */
module Shell {
  import opened Wrappers
  import opened Strings
  import opened Tables
  import opened Codec
  import opened Commands
  import opened Dispatch
  import Handlers

  class Database {
    /** The global `database` map. */
    var tables: Store
    /** The files that can be opened for reading, with their contents. */
    var files: map<Str, seq<byte>>

    /** The store starts empty. */
    constructor (disk: map<Str, seq<byte>>)
      ensures tables == map[] && files == disk
    {
      tables := map[];
      files := disk;
    }

    /** SAVE on the current store: on success the named file, and no
        other, now holds the snapshot. */
    method SaveFile(line: Str, canWrite: bool) returns (r: Response)
      modifies this`files
      ensures r == SaveCommand(line, canWrite)
      ensures !r.Saved? ==> unchanged(this`files)
      ensures r.Saved? ==>
                exists keys :: Walk(keys, tables) &&
                               files == old(files)[r.filename := EncodeSnapshot(TablesOf(tables, keys))]
      ensures r.Saved? && KeysMatchNames(tables) && EncodableStore(tables) ==>
                r.filename in files && DecodeSnapshot(files[r.filename]) == Some((tables, |tables|))
    {
      var written;
      ghost var keys;
      r, written, keys := Handlers.Save(tables, line, canWrite);
      if written.Some? {
        files := files[r.filename := written.value.1];
        assert Walk(keys, tables) && files == old(files)[r.filename := EncodeSnapshot(TablesOf(tables, keys))];
      }
    }

    /** One pass of the main loop on a line: the handler the line's first
        words pick runs on the store; SAVE writes the file, and what it
        writes loads back as the store. */
    method Execute(line: Str, canWrite: bool) returns (r: Response)
      modifies this
      ensures !Classify(line).Save? ==> (r, tables) == Step(old(tables), line, old(files))
      ensures !Classify(line).Save? ==> unchanged(this`files)
      ensures Classify(line).Save? ==> unchanged(this`tables)
      ensures Classify(line).Save? ==> r == SaveCommand(line, canWrite)
      ensures Classify(line).Save? && !r.Saved? ==> unchanged(this`files)
      ensures Classify(line).Save? && r.Saved? ==>
                exists keys :: Walk(keys, tables) &&
                               files == old(files)[r.filename := EncodeSnapshot(TablesOf(tables, keys))]
      ensures Classify(line).Save? && r.Saved? && KeysMatchNames(tables) && EncodableStore(tables) ==>
                r.filename in files && DecodeSnapshot(files[r.filename]) == Some((tables, |tables|))
    {
      var kind := Classify(line);
      match kind
      case Blank => r := Nothing;
      case Exit => r := Goodbye;
      case Help => r := HelpShown;
      case CreateTable => r, tables := Handlers.Create(tables, line);
      case InsertInto => r, tables := Handlers.Insert(tables, line);
      case Select => r := Handlers.Select(tables, line);
      case Update => r, tables := Handlers.Update(tables, line);
      case DeleteFrom => r, tables := Handlers.Delete(tables, line);
      case Save => r := SaveFile(line, canWrite);
      case Load => r, tables := Handlers.Load(tables, line, files);
      case Unknown => r := Failed(UnknownCommand);
    }
  }
}
