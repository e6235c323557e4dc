/**
 * The upload step of AliyunOSSClient.java: `parseWorkspaceFiles`
 * (lines 89-108), `uploadSingleFile` (lines 164-173) and `upload`
 * (lines 110-162). `upload` never throws for a per-file failure: each
 * file is deleted then put, a failure is logged and the loop goes on, and
 * the result counts the files whose delete and put both succeeded.
 */
module Upload {
  import opened Wrappers
  import opened StringUtils
  import opened WorkspaceScan
  import opened PatternMatching
  import opened ObjectKeys
  import opened OssClient

  /** What the build hands over as its workspace: none
    * (`getWorkspace()` is null), one whose `toURI()` throws, or the text
    * of its URI. */
  datatype Workspace =
    | NoWorkspace
    | UriFailed
    | WorkspaceUri(uri: string)

  /** `new File(path)`: the entry at a path, `None` when nothing exists
    * there. */
  type FileSystem = string -> Option<Entry>

  /** `parseWorkspaceFiles`: builds the absolute patterns and walks the
    * workspace keeping the files one of them matches. */
  method ParseWorkspaceFiles(matches: Matcher, fs: FileSystem, filePath: string, wsPath: string)
    returns (files: Option<seq<Entry>>)
    ensures files == ScanRoot(fs(wsPath), FilterFor(matches, Patterns(filePath, wsPath)))
  {
    var patterns := BuildPatterns(filePath, wsPath);
    files := GetFileListRecursive(fs(wsPath), FilterFor(matches, patterns));
  }

  /** The files `upload` goes on to send, in scan order: none without a
    * workspace, when its URI fails, for a blank rule string, when the
    * workspace root does not exist, or when a directory listing below it
    * is unreadable (the walk then throws). */
  function MatchedFiles(workspace: Workspace, fs: FileSystem, matches: Matcher, filePath: string): (files: seq<Entry>)
    ensures !workspace.WorkspaceUri? || IsBlank(filePath) ==> files == []
    ensures workspace.WorkspaceUri? && fs(WorkspacePath(workspace.uri)).None? ==> files == []
    ensures workspace.WorkspaceUri? && fs(WorkspacePath(workspace.uri)).Some? ==>
              !Readable(fs(WorkspacePath(workspace.uri)).value) ==> files == []
  {
    match workspace
    case NoWorkspace => []
    case UriFailed => []
    case WorkspaceUri(uri) =>
      if IsBlank(filePath) then []
      else
        var wsPath := WorkspacePath(uri);
        var accept := FilterFor(matches, Patterns(filePath, wsPath));
        ScanRootResult(fs(wsPath), accept);
        match ScanRoot(fs(wsPath), FilterFor(matches, Patterns(filePath, wsPath)))
        case None => []
        case Some(files) => files
  }

  /** Every file `upload` sends is a non-directory entry of the workspace
    * tree whose absolute path one of the patterns matches; every such file
    * is sent when the rule string is not blank and no listing of the
    * workspace tree is unreadable. */
  lemma MatchedFilesAreMatches(workspace: Workspace, fs: FileSystem, matches: Matcher, filePath: string)
    ensures forall f :: f in MatchedFiles(workspace, fs, matches, filePath) ==>
              && workspace.WorkspaceUri?
              && f.File?
              && fs(WorkspacePath(workspace.uri)).Some?
              && f in Files(fs(WorkspacePath(workspace.uri)).value)
              && AnyMatch(matches, Patterns(filePath, WorkspacePath(workspace.uri)), f.path)
    ensures workspace.WorkspaceUri? && !IsBlank(filePath) &&
            fs(WorkspacePath(workspace.uri)).Some? && Readable(fs(WorkspacePath(workspace.uri)).value) ==>
              forall f :: f in Files(fs(WorkspacePath(workspace.uri)).value) &&
                          AnyMatch(matches, Patterns(filePath, WorkspacePath(workspace.uri)), f.path) ==>
                f in MatchedFiles(workspace, fs, matches, filePath)
  {
    if workspace.WorkspaceUri? && !IsBlank(filePath) {
      var wsPath := WorkspacePath(workspace.uri);
      ScanRootResult(fs(wsPath), FilterFor(matches, Patterns(filePath, wsPath)));
      if fs(wsPath).Some? {
        ScanIsFilteredFiles(fs(wsPath).value, FilterFor(matches, Patterns(filePath, wsPath)));
      }
    }
  }

  /** The workspace as the file system lays it out: when it exists it is a
    * directory, the workspace path is its path with a trailing `/`, and
    * every entry below it lies under its directory's path. */
  predicate WellFormedWorkspace(fs: FileSystem, wsPath: string)
  {
    fs(wsPath).Some? ==>
      && fs(wsPath).value.IsDirectory()
      && fs(wsPath).value.path + "/" == wsPath
      && Nested(fs(wsPath).value)
  }

  /** In a well-formed workspace every file `upload` sends lies under the
    * workspace path, and its object key is the folder part of the prefix
    * followed by the file's path relative to the workspace. */
  lemma MatchedFileKeys(uri: string, fs: FileSystem, matches: Matcher, filePath: string, objectPrefix: string)
    requires WellFormedWorkspace(fs, WorkspacePath(uri))
    ensures forall f :: f in MatchedFiles(WorkspaceUri(uri), fs, matches, filePath) ==>
              var wsPath := WorkspacePath(uri);
              && StartsWith(f.path, wsPath)
              && ObjectKey(wsPath, objectPrefix, f.path) == FolderPrefix(objectPrefix) + f.path[|wsPath|..]
  {
    var wsPath := WorkspacePath(uri);
    MatchedFilesAreMatches(WorkspaceUri(uri), fs, matches, filePath);
    if fs(wsPath).Some? && fs(wsPath).value.Dir? {
      var root := fs(wsPath).value;
      AllFilesUnder(root.children, wsPath);
      forall f | f in MatchedFiles(WorkspaceUri(uri), fs, matches, filePath)
        ensures StartsWith(f.path, wsPath)
        ensures ObjectKey(wsPath, objectPrefix, f.path) == FolderPrefix(objectPrefix) + f.path[|wsPath|..]
      {
        assert f.path == wsPath + f.path[|wsPath|..];
        ObjectKeyOfWorkspaceFile(wsPath, objectPrefix, f.path[|wsPath|..]);
      }
    }
  }

  /** The requests of one `uploadSingleFile`: a delete of the key, then,
    * only if the delete succeeded, a put of the file under the same key;
    * the file counts as uploaded exactly when both succeeded. */
  predicate Attempt(trace: seq<Call>, bucket: string, key: string, file: string, ok: bool)
  {
    || (trace == [Call(Delete(bucket, key), false)] && !ok)
    || (trace == [Call(Delete(bucket, key), true), Call(Put(bucket, key, file), ok)])
  }

  /** `uploadSingleFile`; `ok` is false where the Java method throws. */
  method UploadSingleFile(basePath: string, bucketName: string, topFolderName: string, file: Entry, client: Client)
    returns (ok: bool, ghost trace: seq<Call>)
    modifies client
    ensures client.calls == old(client.calls) + trace
    ensures Attempt(trace, bucketName, ObjectKey(basePath, topFolderName, file.path), file.path, ok)
  {
    var key := ObjectKey(basePath, topFolderName, file.path);
    var deleted := client.DeleteObject(bucketName, key);
    if !deleted {
      trace := [Call(Delete(bucketName, key), false)];
      return false, trace;
    }
    ok := client.PutObject(bucketName, key, file.path);
    trace := [Call(Delete(bucketName, key), true), Call(Put(bucketName, key, file.path), ok)];
  }

  function Concat(traces: seq<seq<Call>>): seq<Call>
  {
    if traces == [] then [] else Concat(traces[..|traces| - 1]) + traces[|traces| - 1]
  }

  function CountTrue(outcomes: seq<bool>): nat
  {
    if outcomes == [] then 0
    else CountTrue(outcomes[..|outcomes| - 1]) + (if outcomes[|outcomes| - 1] then 1 else 0)
  }

  /** `traces[i]` and `outcomes[i]` are the requests sent for, and the
    * outcome of, uploading `files[i]` under its object key. */
  predicate Attempts(traces: seq<seq<Call>>, outcomes: seq<bool>, files: seq<Entry>,
                     bucket: string, wsPath: string, prefix: string)
  {
    && |traces| == |files| && |outcomes| == |files|
    && forall i :: 0 <= i < |files| ==>
         Attempt(traces[i], bucket, ObjectKey(wsPath, prefix, files[i].path), files[i].path, outcomes[i])
  }

  /** One more attempt extends the attempts of the files before it. */
  lemma AttemptsSnoc(traces: seq<seq<Call>>, outcomes: seq<bool>, files: seq<Entry>, i: nat,
                     trace: seq<Call>, ok: bool, bucket: string, wsPath: string, prefix: string)
    requires i < |files| && Attempts(traces, outcomes, files[..i], bucket, wsPath, prefix)
    requires Attempt(trace, bucket, ObjectKey(wsPath, prefix, files[i].path), files[i].path, ok)
    ensures Attempts(traces + [trace], outcomes + [ok], files[..i + 1], bucket, wsPath, prefix)
  {
    var ts, os, fs := traces + [trace], outcomes + [ok], files[..i + 1];
    forall j | 0 <= j < |fs|
      ensures Attempt(ts[j], bucket, ObjectKey(wsPath, prefix, fs[j].path), fs[j].path, os[j])
    {
      if j < i {
        assert ts[j] == traces[j] && os[j] == outcomes[j] && fs[j] == files[..i][j];
      } else {
        assert ts[j] == trace && os[j] == ok && fs[j] == files[i];
      }
    }
  }

  /** The loop of `upload` (lines 147-157): every file is tried in turn,
    * whatever happened to the earlier ones, and the counter goes up for
    * each one whose delete and put both succeeded. */
  method UploadFiles(wsPath: string, bucketName: string, objectPrefix: string, files: seq<Entry>, client: Client)
    returns (filesUploaded: nat, ghost traces: seq<seq<Call>>, ghost outcomes: seq<bool>)
    modifies client
    ensures Attempts(traces, outcomes, files, bucketName, wsPath, objectPrefix)
    ensures client.calls == old(client.calls) + Concat(traces)
    ensures filesUploaded == CountTrue(outcomes)
  {
    filesUploaded := 0;
    traces, outcomes := [], [];
    for i := 0 to |files|
      invariant Attempts(traces, outcomes, files[..i], bucketName, wsPath, objectPrefix)
      invariant client.calls == old(client.calls) + Concat(traces)
      invariant filesUploaded == CountTrue(outcomes)
    {
      var ok;
      ghost var trace;
      ok, trace := UploadSingleFile(wsPath, bucketName, objectPrefix, files[i], client);
      if ok {
        filesUploaded := filesUploaded + 1;
      }
      AttemptsSnoc(traces, outcomes, files, i, trace, ok, bucketName, wsPath, objectPrefix);
      assert (traces + [trace])[..i] == traces && (outcomes + [ok])[..i] == outcomes;
      traces, outcomes := traces + [trace], outcomes + [ok];
    }
    assert files[..|files|] == files;
  }

  /** `upload`. The ghost results give, per matched file and in scan
    * order, the requests sent for it and whether it was uploaded. */
  method Upload(workspace: Workspace, fs: FileSystem, matches: Matcher, bucketName: string,
                filePath: string, objectPrefix: string, client: Client)
    returns (filesUploaded: nat, ghost traces: seq<seq<Call>>, ghost outcomes: seq<bool>)
    modifies client
    ensures MatchedFiles(workspace, fs, matches, filePath) == [] ==>
              filesUploaded == 0 && traces == [] && outcomes == [] && client.calls == old(client.calls)
    ensures MatchedFiles(workspace, fs, matches, filePath) != [] ==>
              && workspace.WorkspaceUri?
              && Attempts(traces, outcomes, MatchedFiles(workspace, fs, matches, filePath),
                          bucketName, WorkspacePath(workspace.uri), objectPrefix)
    ensures client.calls == old(client.calls) + Concat(traces)
    ensures filesUploaded == CountTrue(outcomes)
  {
    filesUploaded := 0;
    traces, outcomes := [], [];
    if workspace.NoWorkspace? {
      return;
    }
    var allMatchFiles: Option<seq<Entry>> := None;
    var wsPath := "";
    if workspace.WorkspaceUri? {
      wsPath := WorkspacePath(workspace.uri);
      if IsBlank(filePath) {
        return;
      }
      allMatchFiles := ParseWorkspaceFiles(matches, fs, filePath, wsPath);
    }
    // A failed `toURI()` or a failed walk leaves the list null (the catch
    // at lines 139-141).
    if allMatchFiles.Some? && |allMatchFiles.value| > 0 {
      filesUploaded, traces, outcomes := UploadFiles(wsPath, bucketName, objectPrefix, allMatchFiles.value, client);
    }
  }

  /** The count stays within the number of matched files. */
  lemma {:induction false} CountTrueBounds(outcomes: seq<bool>)
    ensures CountTrue(outcomes) <= |outcomes|
    ensures CountTrue(outcomes) == |outcomes| <==> forall i :: 0 <= i < |outcomes| ==> outcomes[i]
  {
    if outcomes != [] {
      var front := outcomes[..|outcomes| - 1];
      CountTrueBounds(front);
      if forall i :: 0 <= i < |outcomes| ==> outcomes[i] {
        assert forall i :: 0 <= i < |front| ==> front[i] == outcomes[i];
      }
    }
  }

  /** The count equals the number of put requests the client saw succeed. */
  lemma {:induction false} CountIsSuccessfulPuts(traces: seq<seq<Call>>, outcomes: seq<bool>,
                                                 bucket: string, keys: seq<string>, files: seq<string>)
    requires |traces| == |outcomes| == |keys| == |files|
    requires forall i :: 0 <= i < |traces| ==> Attempt(traces[i], bucket, keys[i], files[i], outcomes[i])
    ensures SuccessfulPuts(Concat(traces)) == CountTrue(outcomes)
  {
    if traces != [] {
      var n := |traces| - 1;
      CountIsSuccessfulPuts(traces[..n], outcomes[..n], bucket, keys[..n], files[..n]);
      SuccessfulPutsAppend(Concat(traces[..n]), traces[n]);
      var t := traces[n];
      assert Attempt(t, bucket, keys[n], files[n], outcomes[n]);
      if |t| == 1 {
        assert t[..0] == [];
      } else {
        assert t[..1][..0] == [] && t[..1] == [t[0]] && t[..|t| - 1] == t[..1];
        assert SuccessfulPuts(t[..1]) == 0;
        assert SuccessfulPuts(t) == (if outcomes[n] then 1 else 0);
      }
    }
  }

  /** Whatever the client answers, the number `upload` reports is the
    * number of put requests the client saw succeed, and at most the number
    * of files attempted. */
  lemma UploadCount(traces: seq<seq<Call>>, outcomes: seq<bool>, files: seq<Entry>,
                    bucket: string, wsPath: string, prefix: string)
    requires Attempts(traces, outcomes, files, bucket, wsPath, prefix)
    ensures SuccessfulPuts(Concat(traces)) == CountTrue(outcomes) <= |files|
  {
    var keys := seq(|files|, i requires 0 <= i < |files| => ObjectKey(wsPath, prefix, files[i].path));
    var paths := seq(|files|, i requires 0 <= i < |files| => files[i].path);
    CountIsSuccessfulPuts(traces, outcomes, bucket, keys, paths);
    CountTrueBounds(outcomes);
  }
}
