/** The part of the file system the release engine writes to: a map from file
    path to contents, plus the order in which paths were written. Writes to a
    path in `unwritable` fail, which stands for any `os.WriteFile` error. */
module FileSystem {
  import opened Wrappers

  datatype IoError = WriteFailed(path: string)

  class Disk {
    var files: map<string, string>
    var written: seq<string>
    const unwritable: set<string>

    constructor (files: map<string, string>, unwritable: set<string>)
      ensures this.files == files && this.written == [] && this.unwritable == unwritable
    {
      this.files := files;
      this.written := [];
      this.unwritable := unwritable;
    }

    /** os.WriteFile(path, data, 0644) */
    method WriteFile(path: string, data: string) returns (err: Option<IoError>)
      modifies this
      ensures path in unwritable ==> err == Some(WriteFailed(path)) && files == old(files) && written == old(written)
      ensures path !in unwritable ==> err == None && files == old(files)[path := data] && written == old(written) + [path]
    {
      if path in unwritable {
        err := Some(WriteFailed(path));
      } else {
        files := files[path := data];
        written := written + [path];
        err := None;
      }
    }
  }
}
