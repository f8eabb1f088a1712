/**
 * The file system the cache lives on, reduced to what `fs.readFile`,
 * `fs.exists`, `fs.writeFile` and `mkdirp` observe: a map from path to content,
 * plus the write failures the environment injects.
 */
module Disk {
  import opened Wrappers
  import opened Http

  /** Failures the environment imposes on writes: `mkdirp` failing, and paths that cannot be written. */
  datatype Faults = Faults(mkdirFails: bool, unwritable: set<Path>)

  /** The file system after `fs.writeFile(p, content)`, and the error its callback receives. */
  function WriteResult(files: Files, p: Path, content: string, unwritable: set<Path>): (r: (Files, Option<Error>))
    ensures p in unwritable ==> r == (files, Some(IoError(p)))
    ensures p !in unwritable ==> r.0 == files[p := content] && r.1 == None
  {
    if p in unwritable then (files, Some(IoError(p))) else (files[p := content], None)
  }

  class Disk {
    var files: Files

    constructor (files: Files)
      ensures this.files == files
    {
      this.files := files;
    }

    /** `fs.readFile(p)`: the content, or `None` when the read fails. */
    method ReadFile(p: Path) returns (content: Option<string>)
      ensures content == Lookup(files, p)
    {
      content := if p in files then Some(files[p]) else None;
    }

    /** `fs.exists(p)`. */
    method Exists(p: Path) returns (present: bool)
      ensures present <==> p in files
    {
      present := p in files;
    }

    /** `fs.writeFile(p, content)`; a failed write leaves the file system as it was. */
    method WriteFile(p: Path, content: string, unwritable: set<Path>) returns (err: Option<Error>)
      modifies this
      ensures (files, err) == WriteResult(old(files), p, content, unwritable)
    {
      if p in unwritable {
        err := Some(IoError(p));
      } else {
        files := files[p := content];
        err := None;
      }
    }
  }
}
