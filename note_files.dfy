/** The Markdown notes on disk, as the sanitizer and the metadata injector
    see them: reading and writing a note either succeeds or raises. */
module NoteFiles {

  import opened Wrappers
  import opened Strings

  type FilePath = string

  /** The notes: the text of each note that exists and reads, and the
      notes whose reading or writing raises. */
  datatype Notes = Notes(text: map<FilePath, string>, unreadable: set<FilePath>, unwritable: set<FilePath>)

  /** `read_text` succeeds. */
  predicate Readable(v: Notes, path: FilePath) {
    path in v.text && path !in v.unreadable
  }

  /** `Path.name`: the last component of the path. */
  function Name(path: FilePath): (r: string)
    ensures '/' !in r && IsSuffix(r, path)
  {
    match LastIndexOf(path, '/')
    case Some(i) => path[i + 1..]
    case None => path
  }

  /** `Path.stem`: the name without its last suffix, where a suffix starts
      at a `.` that is neither the first nor the last character. */
  function Stem(path: FilePath): (r: string)
    ensures IsPrefix(r, Name(path))
  {
    var n := Name(path);
    match LastIndexOf(n, '.')
    case Some(i) => if 0 < i < |n| - 1 then n[..i] else n
    case None => n
  }

  /** A stem shorter than the name drops exactly a suffix `.x` that holds
      no other `.`. */
  lemma StemSuffix(path: FilePath)
    ensures var n, st := Name(path), Stem(path);
      |st| < |n| ==> 0 < |st| && |st| + 2 <= |n| && n[|st|] == '.' && '.' !in n[|st| + 1..]
  {
  }
}
