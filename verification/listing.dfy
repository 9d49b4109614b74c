/** `CheckFormat._get_file_names`: the working set is the directory listing
    restricted to the entries that are regular files. The listing and the
    regular-file test are inputs; the test is asked about the path the script
    builds, `dir_path + entry`, with no separator inserted. */
module Listing {
  import opened Base

  /** The test the script applies to one listing entry. */
  function IsListedFile(dirPath: string, isFile: string -> bool): string -> bool
  {
    entry => isFile(dirPath + entry)
  }

  /** The working set: the regular-file entries of the listing, in listing order. */
  function FileNames(dirPath: string, entries: seq<string>, isFile: string -> bool): (names: seq<string>)
    ensures |names| <= |entries|
    ensures forall f :: f in names <==> f in entries && isFile(dirPath + f)
  {
    Filter(IsListedFile(dirPath, isFile), entries)
  }

  /** Listing order is kept: the files among the first entries come first. */
  lemma FileNamesOrder(dirPath: string, xs: seq<string>, ys: seq<string>, isFile: string -> bool)
    ensures FileNames(dirPath, xs + ys, isFile) == FileNames(dirPath, xs, isFile) + FileNames(dirPath, ys, isFile)
  {
    FilterConcat(IsListedFile(dirPath, isFile), xs, ys);
  }

  /** The loop of `_get_file_names`: it appends, in order, every entry whose
      path is a regular file, and nothing else. */
  method GetFileNames(dirPath: string, entries: seq<string>, isFile: string -> bool)
    returns (fileNames: seq<string>)
    ensures fileNames == FileNames(dirPath, entries, isFile)
  {
    fileNames := [];
    var i := 0;
    while i < |entries|
      invariant i <= |entries|
      invariant fileNames == FileNames(dirPath, entries[..i], isFile)
    {
      var file := entries[i];
      FilterSnoc(IsListedFile(dirPath, isFile), entries, i);
      if isFile(dirPath + file) {
        fileNames := fileNames + [file];
      }
      i := i + 1;
    }
    assert entries[..i] == entries;
  }
}
