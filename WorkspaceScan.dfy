/**
 * The recursive workspace walk of `getFileListRecursive`
 * (AliyunOSSClient.java, lines 64-86): every non-directory entry under a
 * root that a file filter accepts, in directory-listing order.
 *
 * The file system is a finite tree. A directory whose listing cannot be
 * read (`File.listFiles()` returns null) is `UnreadableDir`: the Java loop
 * dereferences the null array, and the resulting exception aborts the
 * whole walk, which the model reports as `None`.
 */
module WorkspaceScan {
  import opened Wrappers
  import opened StringUtils

  datatype Entry =
    | File(path: string)
    | Dir(path: string, children: seq<Entry>)
    | UnreadableDir(path: string)
  {
    /** `File.isDirectory()`. */
    predicate IsDirectory()
    {
      !File?
    }
  }

  /** `java.io.FileFilter.accept`. */
  type Filter = Entry -> bool

  // ---------------------------------------------------------------------
  // What the walk computes

  /** The walk of one existing entry; `None` when a listing fails. */
  function Scan(e: Entry, accept: Filter): Option<seq<Entry>>
    decreases e
  {
    match e
    case File(_) => Some(if accept(e) then [e] else [])
    case Dir(_, children) => ScanAll(children, accept)
    case UnreadableDir(_) => None
  }

  /** The walks of a directory's children, concatenated in listing order. */
  function ScanAll(cs: seq<Entry>, accept: Filter): Option<seq<Entry>>
    decreases cs
  {
    if cs == [] then Some([])
    else
      match ScanAll(cs[..|cs| - 1], accept)
      case None => None
      case Some(front) =>
        match Scan(cs[|cs| - 1], accept)
        case None => None
        case Some(last) => Some(front + last)
  }

  /** The walk from a root that may be missing (`null` or not existing). */
  function ScanRoot(root: Option<Entry>, accept: Filter): Option<seq<Entry>>
  {
    if root.None? then Some([]) else Scan(root.value, accept)
  }

  // ---------------------------------------------------------------------
  // An independent description: filter the flattened tree

  /** No directory in the tree has an unreadable listing. */
  predicate Readable(e: Entry)
    decreases e
  {
    match e
    case File(_) => true
    case Dir(_, children) => AllReadable(children)
    case UnreadableDir(_) => false
  }

  predicate AllReadable(cs: seq<Entry>)
    decreases cs
  {
    cs == [] || (AllReadable(cs[..|cs| - 1]) && Readable(cs[|cs| - 1]))
  }

  /** Every non-directory entry of the tree, in listing order. */
  function Files(e: Entry): seq<Entry>
    decreases e
  {
    match e
    case File(_) => [e]
    case Dir(_, children) => FilesAll(children)
    case UnreadableDir(_) => []
  }

  function FilesAll(cs: seq<Entry>): seq<Entry>
    decreases cs
  {
    if cs == [] then [] else FilesAll(cs[..|cs| - 1]) + Files(cs[|cs| - 1])
  }

  /** The entries of `s` that `accept` accepts, in order. */
  function Keep(s: seq<Entry>, accept: Filter): (r: seq<Entry>)
    ensures forall x :: x in r <==> x in s && accept(x)
  {
    if s == [] then [] else (if accept(s[0]) then [s[0]] else []) + Keep(s[1..], accept)
  }

  lemma {:induction false} KeepAppend(a: seq<Entry>, b: seq<Entry>, accept: Filter)
    ensures Keep(a + b, accept) == Keep(a, accept) + Keep(b, accept)
  {
    if a == [] {
      assert a + b == b;
    } else {
      assert (a + b)[0] == a[0];
      assert (a + b)[1..] == a[1..] + b;
      KeepAppend(a[1..], b, accept);
    }
  }

  /** The walk returns exactly the accepted non-directory descendants, in
    * listing order, and fails exactly when some listing is unreadable. */
  lemma {:induction false} ScanIsFilteredFiles(e: Entry, accept: Filter)
    ensures Scan(e, accept) == if Readable(e) then Some(Keep(Files(e), accept)) else None
    decreases e
  {
    match e
    case File(_) =>
      assert [e][1..] == [];
      assert Keep([e], accept) == (if accept(e) then [e] else []);
    case Dir(_, children) =>
      ScanAllIsFilteredFiles(children, accept);
    case UnreadableDir(_) =>
  }

  lemma {:induction false} ScanAllIsFilteredFiles(cs: seq<Entry>, accept: Filter)
    ensures ScanAll(cs, accept) == if AllReadable(cs) then Some(Keep(FilesAll(cs), accept)) else None
    decreases cs
  {
    if cs != [] {
      var front, last := cs[..|cs| - 1], cs[|cs| - 1];
      ScanAllIsFilteredFiles(front, accept);
      ScanIsFilteredFiles(last, accept);
      KeepAppend(FilesAll(front), Files(last), accept);
    }
  }

  /** Once a listing has failed, the walk of the remaining children cannot
    * make the directory's walk succeed. */
  lemma {:induction false} ScanAllPrefixFails(cs: seq<Entry>, i: nat, accept: Filter)
    requires i <= |cs| && ScanAll(cs[..i], accept).None?
    ensures ScanAll(cs, accept).None?
    decreases |cs| - i
  {
    if i < |cs| {
      assert cs[..i + 1][..i] == cs[..i];
      ScanAllPrefixFails(cs, i + 1, accept);
    } else {
      assert cs[..i] == cs;
    }
  }

  /** Flattening never yields a directory. */
  lemma {:induction false} FilesAreNotDirectories(e: Entry)
    ensures forall x :: x in Files(e) ==> x.File?
    decreases e
  {
    if e.Dir? {
      FilesAllAreNotDirectories(e.children);
    }
  }

  lemma {:induction false} FilesAllAreNotDirectories(cs: seq<Entry>)
    ensures forall x :: x in FilesAll(cs) ==> x.File?
    decreases cs
  {
    if cs != [] {
      FilesAllAreNotDirectories(cs[..|cs| - 1]);
      FilesAreNotDirectories(cs[|cs| - 1]);
    }
  }

  /** A walk from an existing root succeeds exactly when no listing below
    * it is unreadable. A successful walk gives files only, each accepted,
    * and every accepted file of the tree; a file root gives [root] exactly
    * when it is accepted, and a missing root gives nothing. */
  lemma ScanRootResult(root: Option<Entry>, accept: Filter)
    ensures root.None? ==> ScanRoot(root, accept) == Some([])
    ensures root.Some? ==> (ScanRoot(root, accept).Some? <==> Readable(root.value))
    ensures root.Some? && root.value.File? ==>
              ScanRoot(root, accept) == Some(if accept(root.value) then [root.value] else [])
    ensures ScanRoot(root, accept).Some? ==>
              forall x :: x in ScanRoot(root, accept).value <==>
                          root.Some? && x in Files(root.value) && accept(x)
    ensures ScanRoot(root, accept).Some? ==>
              forall x :: x in ScanRoot(root, accept).value ==> x.File? && !x.IsDirectory()
  {
    if root.Some? {
      ScanIsFilteredFiles(root.value, accept);
      FilesAreNotDirectories(root.value);
    }
  }

  /** A tree as `File.listFiles()` builds it: each child's path is its
    * directory's path followed by `/`. */
  predicate Nested(e: Entry)
    decreases e
  {
    match e
    case Dir(p, children) => AllNested(children, p + "/")
    case _ => true
  }

  predicate AllNested(cs: seq<Entry>, dir: string)
    decreases cs
  {
    cs == [] || (AllNested(cs[..|cs| - 1], dir) && StartsWith(cs[|cs| - 1].path, dir) && Nested(cs[|cs| - 1]))
  }

  lemma StartsWithTransitive(s: string, mid: string, dir: string)
    requires StartsWith(s, mid) && StartsWith(mid, dir)
    ensures StartsWith(s, dir)
  {
    assert s[..|dir|] == s[..|mid|][..|dir|];
  }

  /** In a nested tree every file lies under every directory that its
    * root lies under. */
  lemma {:induction false} FilesUnder(e: Entry, dir: string)
    requires Nested(e) && StartsWith(e.path, dir)
    ensures forall x :: x in Files(e) ==> StartsWith(x.path, dir)
    decreases e, 1
  {
    if e.Dir? {
      var inner := e.path + "/";
      AllFilesUnder(e.children, inner);
      assert StartsWith(inner, e.path) by { assert inner[..|e.path|] == e.path; }
      forall x | x in Files(e) ensures StartsWith(x.path, dir) {
        StartsWithTransitive(x.path, inner, e.path);
        StartsWithTransitive(x.path, e.path, dir);
      }
    }
  }

  lemma {:induction false} AllFilesUnder(cs: seq<Entry>, dir: string)
    requires AllNested(cs, dir)
    ensures forall x :: x in FilesAll(cs) ==> StartsWith(x.path, dir)
    decreases cs, 0
  {
    if cs != [] {
      AllFilesUnder(cs[..|cs| - 1], dir);
      FilesUnder(cs[|cs| - 1], dir);
    }
  }

  // ---------------------------------------------------------------------
  // The walk itself

  function Size(e: Entry): nat
    decreases e
  {
    if e.Dir? then 1 + SizeAll(e.children) else 1
  }

  function SizeAll(cs: seq<Entry>): nat
    decreases cs
  {
    if cs == [] then 0 else SizeAll(cs[..|cs| - 1]) + Size(cs[|cs| - 1])
  }

  lemma {:induction false} ChildSize(cs: seq<Entry>, k: nat)
    requires k < |cs|
    ensures Size(cs[k]) <= SizeAll(cs)
    decreases cs
  {
    if k < |cs| - 1 {
      ChildSize(cs[..|cs| - 1], k);
    }
  }

  /** `getFileListRecursive`: appends each accepted file, and the walk of
    * each subdirectory, to a result list in listing order. */
  method GetFileListRecursive(root: Option<Entry>, accept: Filter) returns (resultFiles: Option<seq<Entry>>)
    ensures resultFiles == ScanRoot(root, accept)
    decreases if root.Some? then Size(root.value) else 0
  {
    var found: seq<Entry> := [];
    if root.Some? {
      var e := root.value;
      if e.IsDirectory() {
        if e.UnreadableDir? {
          return None;
        }
        var files := e.children;
        var i := 0;
        while i < |files|
          invariant 0 <= i <= |files|
          invariant ScanAll(files[..i], accept) == Some(found)
        {
          var file := files[i];
          assert files[..i + 1][..i] == files[..i] && files[..i + 1][i] == file;
          if file.IsDirectory() {
            ChildSize(files, i);
            var sub := GetFileListRecursive(Some(file), accept);
            if sub.None? {
              assert ScanAll(files[..i + 1], accept).None?;
              ScanAllPrefixFails(files, i + 1, accept);
              return None;
            }
            assert Scan(file, accept) == sub;
            found := found + sub.value;
          } else if accept(file) {
            assert Scan(file, accept) == Some([file]);
            found := found + [file];
          } else {
            assert Scan(file, accept) == Some([]);
            assert found + [] == found;
          }
          i := i + 1;
        }
        assert files[..|files|] == files;
        assert Scan(e, accept) == Some(found);
      } else {
        assert Scan(e, accept) == Some(if accept(e) then [e] else []);
        if accept(e) {
          found := found + [e];
          assert found == [e];
        }
      }
    }
    return Some(found);
  }
}
