/**
 * The two string computations of AliyunOSSClient.java that fix where a
 * file goes: the workspace path taken from the workspace URI (lines
 * 125-131) and the object key of a file (lines 166-170).
 */
module ObjectKeys {
  import opened StringUtils

  const FileScheme: string := "file:"

  /** The workspace URI with a trailing `/` added when missing and a
    * leading `file:` scheme removed. */
  function WorkspacePath(uri: string): (r: string)
    ensures |r| > 0 && r[|r| - 1] == '/'
    ensures |r| <= |uri| + 1
  {
    var withSlash := if EndsWith(uri, "/") then uri else uri + "/";
    if StartsWith(withSlash, FileScheme) then
      var rest := withSlash[|FileScheme|..];
      assert withSlash[|withSlash| - 1] == '/' != FileScheme[|FileScheme| - 1];
      assert withSlash == FileScheme + rest;
      SubstringAfterPrefix(FileScheme, rest);
      SubstringAfter(withSlash, FileScheme)
    else
      withSlash
  }

  /** A `file:` scheme at the start of the URI is removed and the rest is
    * kept as it was; any other URI is kept whole. Either way a `/` is
    * appended only when the URI does not already end with one. */
  lemma WorkspacePathShape(uri: string)
    ensures StartsWith(uri, FileScheme) ==>
              WorkspacePath(uri) == uri[|FileScheme|..] + (if EndsWith(uri, "/") then "" else "/")
    ensures !StartsWith(uri, FileScheme) ==>
              WorkspacePath(uri) == uri + (if EndsWith(uri, "/") then "" else "/")
  {
    var slash := if EndsWith(uri, "/") then "" else "/";
    var withSlash := uri + slash;
    assert withSlash == if EndsWith(uri, "/") then uri else uri + "/";
    var n := |FileScheme|;
    if StartsWith(uri, FileScheme) {
      assert withSlash[..n] == uri[..n];
      var rest := withSlash[n..];
      assert withSlash == FileScheme + rest;
      SubstringAfterPrefix(FileScheme, rest);
      assert rest == uri[n..] + slash;
    } else if |uri| >= n {
      assert withSlash[..n] == uri[..n];
    } else if |withSlash| >= n {
      assert withSlash[n - 1] == '/' != FileScheme[n - 1];
    }
  }

  /** The folder part of a key: nothing for a blank prefix, otherwise the
    * prefix with `/` appended when it does not already end in one. */
  function FolderPrefix(topFolderName: string): string
  {
    if IsBlank(topFolderName) then ""
    else if EndsWith(topFolderName, "/") then topFolderName
    else topFolderName + "/"
  }

  /** The key of a file under `uploadSingleFile` (lines 166-170): the
    * folder part followed by the text after the first occurrence of the
    * base path in the file's path. */
  function ObjectKey(basePath: string, topFolderName: string, absolutePath: string): (key: string)
    ensures forall p: nat :: FirstOccurrence(absolutePath, basePath, p) ==>
              key == FolderPrefix(topFolderName) + absolutePath[p + |basePath|..]
  {
    var key := SubstringAfter(absolutePath, basePath);
    if IsBlank(topFolderName) then key else FolderPrefix(topFolderName) + key
  }

  /** A non-blank prefix gains exactly one `/`, and only when it lacks one. */
  lemma FolderPrefixShape(topFolderName: string)
    ensures IsBlank(topFolderName) <==> FolderPrefix(topFolderName) == ""
    ensures !IsBlank(topFolderName) ==>
              && EndsWith(FolderPrefix(topFolderName), "/")
              && StartsWith(FolderPrefix(topFolderName), topFolderName)
              && |FolderPrefix(topFolderName)| == |topFolderName| + (if EndsWith(topFolderName, "/") then 0 else 1)
  {
    var f := FolderPrefix(topFolderName);
    if !IsBlank(topFolderName) {
      assert |topFolderName| > 0;
      assert f[..|topFolderName|] == topFolderName;
      if !EndsWith(topFolderName, "/") {
        assert f[|f| - 1..] == "/";
      }
    }
  }

  /** A path that does not contain the base path gets the folder part
    * alone as its key ("" for a blank prefix). */
  lemma ObjectKeyWithoutBase(basePath: string, topFolderName: string, absolutePath: string)
    requires forall k: nat :: !OccursAt(absolutePath, basePath, k)
    ensures ObjectKey(basePath, topFolderName, absolutePath) == FolderPrefix(topFolderName)
  {
    assert FolderPrefix(topFolderName) + "" == FolderPrefix(topFolderName);
  }

  /** A file at `workspace + relative` is stored under the folder part
    * followed by its workspace-relative path. */
  lemma ObjectKeyOfWorkspaceFile(workspace: string, topFolderName: string, relative: string)
    ensures ObjectKey(workspace, topFolderName, workspace + relative) == FolderPrefix(topFolderName) + relative
    ensures IsBlank(topFolderName) ==> ObjectKey(workspace, topFolderName, workspace + relative) == relative
  {
    SubstringAfterPrefix(workspace, relative);
    assert "" + relative == relative;
  }

  /** A prefix that itself starts with `/` yields a key that starts with
    * `/`: keys are not guaranteed to be free of a leading separator. */
  /** A prefix that starts with `/` is kept at the head of every key, so
    * the key starts with `/` too: nothing strips a leading separator. */
  lemma ObjectKeyKeepsLeadingSlash(basePath: string, topFolderName: string, absolutePath: string)
    requires StartsWith(topFolderName, "/")
    ensures StartsWith(ObjectKey(basePath, topFolderName, absolutePath), "/")
  {
    assert !IsWhitespace(topFolderName[0]);
    assert FolderPrefix(topFolderName)[..|topFolderName|] == topFolderName;
    assert (FolderPrefix(topFolderName) + SubstringAfter(absolutePath, basePath))[0] == FolderPrefix(topFolderName)[0];
  }

  lemma ObjectKeyMayStartWithSlash()
    ensures ObjectKey("/ws/", "/dist", "/ws/a.js") == "/dist/a.js"
  {
    assert "/ws/a.js" == "/ws/" + "a.js";
    ObjectKeyOfWorkspaceFile("/ws/", "/dist", "a.js");
    assert !IsBlank("/dist") by { assert !IsWhitespace("/dist"[0]); }
    assert !EndsWith("/dist", "/");
  }
}
