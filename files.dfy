/** The part of the file system the generator touches. Contents are kept
    per path; the paths `fopen` and `file_put_contents` cannot write (a
    missing directory, no permission) are fixed for the run. */
module Files {

  class FileSystem {
    var files: map<string, string>
    const unwritable: set<string>

    constructor (files: map<string, string>, unwritable: set<string>)
      ensures this.files == files && this.unwritable == unwritable
    {
      this.files := files;
      this.unwritable := unwritable;
    }

    /** `file_exists`. */
    predicate Exists(path: string)
      reads this
    {
      path in files
    }

    /** `fopen($path, 'w')`: truncates (or creates) the file, or fails and
        changes nothing. */
    method Open(path: string) returns (ok: bool)
      modifies this
      ensures ok == (path !in unwritable)
      ensures files == if ok then old(files)[path := ""] else old(files)
    {
      ok := path !in unwritable;
      if ok {
        files := files[path := ""];
      }
    }

    /** `fwrite` on a stream opened for `path`: appends. */
    method Write(path: string, text: string)
      requires path in files
      modifies this
      ensures files == old(files)[path := old(files)[path] + text]
    {
      files := files[path := files[path] + text];
    }

    /** `file_put_contents`: replaces the whole file; on failure it only
        returns `false`, which the generator ignores. */
    method PutContents(path: string, text: string)
      modifies this
      ensures files == if path in unwritable then old(files) else old(files)[path := text]
    {
      if path !in unwritable {
        files := files[path := text];
      }
    }
  }
}
