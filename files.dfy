/**
 * `isGoFile` (goimportssort.go:119-122; the same function is repeated at
 * src/go_imports_sorting.go:95-98): which directory entries the directory
 * walk hands to the file processor.
 */
module Files {
  import opened Text

  /** The part of `os.FileInfo` that `isGoFile` reads. */
  datatype FileInfo = FileInfo(name: string, isDir: bool)

  predicate IsGoFile(f: FileInfo)
  {
    !f.isDir && !HasPrefix(f.name, ".") && HasSuffix(f.name, ".go")
  }

  /**
   * A Go file is a non-directory whose name ends in `.go` and does not
   * start with a dot; such a name has at least one character before the
   * extension, since `.go` alone starts with a dot.
   */
  lemma IsGoFileMeans(f: FileInfo)
    ensures IsGoFile(f) <==>
              !f.isDir && |f.name| >= 4 && f.name[0] != '.' && f.name[|f.name| - 3..] == ".go"
  {
    var n := f.name;
    if |n| >= 1 {
      assert HasPrefix(n, ".") <==> n[0] == '.' by {
        assert n[..1] == [n[0]];
      }
    }
    if |n| == 3 && HasSuffix(n, ".go") {
      assert n[0] == n[|n| - 3..][0];
    }
  }
}
