# Aliyun OSS upload step — a Dafny model

This project models the core of `AliyunOSSClient.java`, the Jenkins build step that uploads workspace files to an Aliyun OSS bucket. The model covers five steps:

- It turns a `;`-separated rule string into absolute Ant patterns.
- It walks the workspace tree and keeps every file that one of the patterns matches (`matchAny`, `getFileListRecursive`, `parseWorkspaceFiles`).
- It normalises the workspace URI into a path.
- It derives the object key of each file.
- It uploads the files one by one, as delete-then-put, and counts the successes (`uploadSingleFile`, `upload`).

The unused helper `getContentType` and its extension table are modelled too.

Modules:

- `StringUtils` defines the string operations the code relies on, so that their exact behaviour is part of the model.
  - From commons-lang: `isBlank` (with Java's `Character.isWhitespace`), `startsWith`, `endsWith`, `substringAfter` and single-character `split`.
  - From `java.lang.String`: `indexOf`, which `substringAfter` uses, and `endsWith`, which line 168 calls directly.
  - commons-lang `join` of two strings with no separator (lines 95 and 169) is plain concatenation, `+`.
  - A Java `null` string is represented by `""`, which every caller treats alike.
- `PatternMatching` covers `matchAny` and pattern-set construction. The Ant path matcher is the parameter `matches`, and nothing is assumed about it.
- `WorkspaceScan` models the file system as a finite tree of `Entry` values.
  - A directory whose listing cannot be read is `UnreadableDir`. There `listFiles()` returns null, the Java loop throws, and `upload` catches the exception. The walk reports this as `None`.
  - The walk itself is a recursive method. It is proved equal to a reference definition: filter the flattened tree.
- `ObjectKeys` covers workspace-path normalisation and key derivation.
- `OssClient` is the SDK client. It is a class that records every delete/put request and its outcome in `calls`. Each outcome is arbitrary, and a failure stands for the SDK throwing.
- `Upload` covers `parseWorkspaceFiles`, `uploadSingleFile` and `upload`. The ghost results `traces` and `outcomes` give, per matched file and in scan order, the requests sent and whether that file was counted.
- `ContentTypes` covers `getContentType`. The JDK's file-name map is an `Option<string>` input.

`Upload.Upload` has no precondition and always returns a count. This mirrors the Java, which catches every per-file failure and every failure to resolve or scan the workspace.

The object key is not guaranteed to be free of a leading `/`. Every prefix that starts with `/` gives a key that starts with `/` (`ObjectKeys.ObjectKeyKeepsLeadingSlash`). For example, the prefix `/dist` gives the key `/dist/a.js` (`ObjectKeys.ObjectKeyMayStartWithSlash`). The code only appends a trailing `/` to the prefix and never strips a leading one. The model follows the code, so no "no leading separator" property is claimed.

The workspace path gains a `/` only when it does not already end with one, so a URI ending in `//` keeps both slashes.

## Model

| member | source | states |
|---|---|---|
| StringUtils.IsBlank | src/main/java/com/fit2cloud/jenkins/aliyunoss/AliyunOSSClient.java:51 | the empty string is blank, and a string with any non-whitespace character is not; the same test decides lines 92, 133 and 167 |
| StringUtils.IndexOf | src/main/java/com/fit2cloud/jenkins/aliyunoss/AliyunOSSClient.java:166 | `indexOf` finds a position exactly when the string occurs somewhere, and the position is its first occurrence |
| StringUtils.IndexOfFrom | src/main/java/com/fit2cloud/jenkins/aliyunoss/AliyunOSSClient.java:166 | the search from an index returns the first occurrence at or after it, or none when there is none from there on |
| StringUtils.SubstringAfter | src/main/java/com/fit2cloud/jenkins/aliyunoss/AliyunOSSClient.java:130 | `substringAfter` is the text after the first occurrence of the separator, and `""` when the separator does not occur |
| StringUtils.SubstringAfterPrefix | src/main/java/com/fit2cloud/jenkins/aliyunoss/AliyunOSSClient.java:129-130 | removing a string's own prefix with `substringAfter` gives back exactly the rest |
| StringUtils.Split | src/main/java/com/fit2cloud/jenkins/aliyunoss/AliyunOSSClient.java:93 | `split` on one character yields only non-empty tokens that contain no separator |
| StringUtils.SplitAtSeparator | src/main/java/com/fit2cloud/jenkins/aliyunoss/AliyunOSSClient.java:93 | a separator cuts the input into two parts whose tokens are concatenated, so adjacent separators count as one |
| StringUtils.SplitSeparatorFree | src/main/java/com/fit2cloud/jenkins/aliyunoss/AliyunOSSClient.java:93 | a string without a separator is one token, or none when it is empty |
| StringUtils.SplitJoin | src/main/java/com/fit2cloud/jenkins/aliyunoss/AliyunOSSClient.java:93 | splitting undoes joining with the separator when every token is non-empty and separator-free |
| PatternMatching.MatchAny | src/main/java/com/fit2cloud/jenkins/aliyunoss/AliyunOSSClient.java:49-62 | `matchAny` is true iff the name is not blank and some pattern matches it. A blank name or an empty list makes no matcher call. The loop stops at the first matching pattern, and every earlier pattern failed |
| PatternMatching.FilterFor | src/main/java/com/fit2cloud/jenkins/aliyunoss/AliyunOSSClient.java:101-106 | the file filter accepts an entry only when its absolute path is not blank and some pattern matches it, and accepts every such entry |
| PatternMatching.PatternsAreWorkspaceTokens | src/main/java/com/fit2cloud/jenkins/aliyunoss/AliyunOSSClient.java:91-98 | a blank rule string gives no patterns. Otherwise there is one pattern per non-empty `;`-free token, in order, equal to the workspace path followed by the token |
| PatternMatching.PatternsStartWithWorkspace | src/main/java/com/fit2cloud/jenkins/aliyunoss/AliyunOSSClient.java:95 | every pattern is absolute: it starts with the workspace path |
| PatternMatching.PrefixedAt | src/main/java/com/fit2cloud/jenkins/aliyunoss/AliyunOSSClient.java:94-96 | joining the workspace path in front of each token keeps the count, and each entry is the path followed by its token |
| PatternMatching.BuildPatterns | src/main/java/com/fit2cloud/jenkins/aliyunoss/AliyunOSSClient.java:91-98 | the pattern-building loop produces exactly the pattern set above |
| WorkspaceScan.GetFileListRecursive | src/main/java/com/fit2cloud/jenkins/aliyunoss/AliyunOSSClient.java:64-86 | the recursive walk returns what the walk specification gives, failing exactly when a listing fails |
| WorkspaceScan.ScanIsFilteredFiles | src/main/java/com/fit2cloud/jenkins/aliyunoss/AliyunOSSClient.java:64-86 | the walk of an entry fails iff some directory listing below it is unreadable. Otherwise it gives exactly the accepted non-directory entries of the tree, in listing order |
| WorkspaceScan.ScanAllIsFilteredFiles | src/main/java/com/fit2cloud/jenkins/aliyunoss/AliyunOSSClient.java:69-78 | the loop over a directory's children gives the accepted files of all their subtrees, in listing order, or fails iff one of them fails |
| WorkspaceScan.ScanAllPrefixFails | src/main/java/com/fit2cloud/jenkins/aliyunoss/AliyunOSSClient.java:69-71 | once the walk of one child has failed, the walk of the whole directory fails |
| WorkspaceScan.ScanRootResult | src/main/java/com/fit2cloud/jenkins/aliyunoss/AliyunOSSClient.java:64-86 | a missing root gives `[]`, and a file root gives `[root]` iff it is accepted. The walk of an existing root succeeds iff no listing below it is unreadable. A successful walk holds exactly the accepted files of the tree and never a directory |
| WorkspaceScan.FilesAreNotDirectories | src/main/java/com/fit2cloud/jenkins/aliyunoss/AliyunOSSClient.java:70-76 | the flattened tree holds no directory |
| WorkspaceScan.FilesUnder | src/main/java/com/fit2cloud/jenkins/aliyunoss/AliyunOSSClient.java:68-75 | in a tree laid out as `listFiles` builds it, every file lies under any directory its root lies under |
| WorkspaceScan.AllFilesUnder | src/main/java/com/fit2cloud/jenkins/aliyunoss/AliyunOSSClient.java:68-75 | every file below a directory's children lies under that directory's path followed by `/` |
| WorkspaceScan.Keep | src/main/java/com/fit2cloud/jenkins/aliyunoss/AliyunOSSClient.java:74-76 | the filtered list holds exactly the accepted members of its input |
| WorkspaceScan.KeepAppend | src/main/java/com/fit2cloud/jenkins/aliyunoss/AliyunOSSClient.java:71-75 | filtering distributes over concatenation, so `addAll` of a sub-walk keeps listing order |
| ObjectKeys.WorkspacePath | src/main/java/com/fit2cloud/jenkins/aliyunoss/AliyunOSSClient.java:125-131 | the workspace path always ends with `/` and is at most one character longer than the URI |
| ObjectKeys.WorkspacePathShape | src/main/java/com/fit2cloud/jenkins/aliyunoss/AliyunOSSClient.java:125-131 | a leading `file:` is removed and the rest of the URI kept unchanged, and any other URI is kept whole. Either way `/` is appended only when missing |
| ObjectKeys.ObjectKey | src/main/java/com/fit2cloud/jenkins/aliyunoss/AliyunOSSClient.java:166-170 | the key is the folder part followed by the text after the first occurrence of the base path in the file's path |
| ObjectKeys.FolderPrefixShape | src/main/java/com/fit2cloud/jenkins/aliyunoss/AliyunOSSClient.java:167-168 | a blank prefix contributes nothing. A non-blank prefix is kept and ends with `/`, gaining one character only when it lacked the `/` |
| ObjectKeys.ObjectKeyWithoutBase | src/main/java/com/fit2cloud/jenkins/aliyunoss/AliyunOSSClient.java:166-170 | a path not containing the base path gets the folder part alone as its key, and `""` for a blank prefix |
| ObjectKeys.ObjectKeyOfWorkspaceFile | src/main/java/com/fit2cloud/jenkins/aliyunoss/AliyunOSSClient.java:166-170 | a file at workspace + relative path gets the folder part followed by the relative path as its key, and exactly the relative path for a blank prefix |
| ObjectKeys.ObjectKeyKeepsLeadingSlash | src/main/java/com/fit2cloud/jenkins/aliyunoss/AliyunOSSClient.java:166-170 | for every base path and file path, a prefix that starts with `/` gives a key that starts with `/` |
| ObjectKeys.ObjectKeyMayStartWithSlash | src/main/java/com/fit2cloud/jenkins/aliyunoss/AliyunOSSClient.java:166-170 | an example: the prefix `/dist` and the file `/ws/a.js` under the base path `/ws/` give the key `/dist/a.js` |
| OssClient.Client.DeleteObject | src/main/java/com/fit2cloud/jenkins/aliyunoss/AliyunOSSClient.java:171 | a delete request is appended to the client's log with its outcome, and nothing else changes |
| OssClient.Client.PutObject | src/main/java/com/fit2cloud/jenkins/aliyunoss/AliyunOSSClient.java:172 | a put request is appended to the client's log with its outcome, and nothing else changes |
| OssClient.SuccessfulPutsAppend | src/main/java/com/fit2cloud/jenkins/aliyunoss/AliyunOSSClient.java:147-157 | successful puts in two consecutive stretches of the log add up |
| Upload.ParseWorkspaceFiles | src/main/java/com/fit2cloud/jenkins/aliyunoss/AliyunOSSClient.java:89-108 | the result is the walk of the workspace root, keeping the entries whose absolute path one of the built patterns matches |
| Upload.MatchedFiles | src/main/java/com/fit2cloud/jenkins/aliyunoss/AliyunOSSClient.java:118-143 | nothing is sent without a workspace URI, for a blank rule string, when the workspace root does not exist, or when a directory listing below it is unreadable |
| Upload.MatchedFilesAreMatches | src/main/java/com/fit2cloud/jenkins/aliyunoss/AliyunOSSClient.java:116-143 | every file `upload` sends comes from a workspace URI, is a non-directory of the workspace tree, and is matched by one of the patterns. Conversely, with a non-blank rule string and every listing readable, every file of the tree that a pattern matches is sent |
| Upload.MatchedFileKeys | src/main/java/com/fit2cloud/jenkins/aliyunoss/AliyunOSSClient.java:164-170 | in a well-formed workspace every file sent lies under the workspace path, and is stored under the folder part followed by its workspace-relative path |
| Upload.UploadSingleFile | src/main/java/com/fit2cloud/jenkins/aliyunoss/AliyunOSSClient.java:164-173 | sends a delete of the derived key, then a put of the file under the same key only if the delete succeeded. It succeeds iff both did |
| Upload.AttemptsSnoc | src/main/java/com/fit2cloud/jenkins/aliyunoss/AliyunOSSClient.java:147-157 | one more file's attempt extends the per-file attempts of the files before it |
| Upload.UploadFiles | src/main/java/com/fit2cloud/jenkins/aliyunoss/AliyunOSSClient.java:147-157 | every file is attempted in order, whatever happened to earlier ones. The client sees exactly those requests, and the counter is the number of files whose delete and put succeeded |
| Upload.Upload | src/main/java/com/fit2cloud/jenkins/aliyunoss/AliyunOSSClient.java:110-162 | with no matched file (no workspace, failed URI, blank rules, failed or empty walk) it returns 0 and sends nothing. Otherwise it attempts every matched file under its key, and the count is the number of successes |
| Upload.CountTrueBounds | src/main/java/com/fit2cloud/jenkins/aliyunoss/AliyunOSSClient.java:151 | the count is at most the number of files, and equals it iff every file succeeded |
| Upload.CountIsSuccessfulPuts | src/main/java/com/fit2cloud/jenkins/aliyunoss/AliyunOSSClient.java:147-172 | the count equals the number of put requests the client saw succeed |
| Upload.UploadCount | src/main/java/com/fit2cloud/jenkins/aliyunoss/AliyunOSSClient.java:147-157 | for any client answers, the returned count is the number of successful puts and at most the number of matched files |
| ContentTypes.ScanTable | src/main/java/com/fit2cloud/jenkins/aliyunoss/AliyunOSSClient.java:195-202 | the stride-2 loop returns what the table scan specification gives |
| ContentTypes.GetContentType | src/main/java/com/fit2cloud/jenkins/aliyunoss/AliyunOSSClient.java:189-205 | returns the lookup's answer when there is one, else the scan of `COMMON_CONTENT_TYPES` |
| ContentTypes.Tail | src/main/java/com/fit2cloud/jenkins/aliyunoss/AliyunOSSClient.java:197-198 | the clamped suffix has the extension's length, or is the whole name when the name is shorter |
| ContentTypes.TailIsEndsWith | src/main/java/com/fit2cloud/jenkins/aliyunoss/AliyunOSSClient.java:197-198 | comparing the clamped suffix with an extension is the same as asking whether the name ends with it |
| ContentTypes.FallbackFirstExtension | src/main/java/com/fit2cloud/jenkins/aliyunoss/AliyunOSSClient.java:195-200 | the scan returns the type paired with the first extension the name ends with |
| ContentTypes.FallbackDefault | src/main/java/com/fit2cloud/jenkins/aliyunoss/AliyunOSSClient.java:195-203 | the scan returns `application/octet-stream` when the name ends with no extension of the table |
| ContentTypes.ContentTypeCases | src/main/java/com/fit2cloud/jenkins/aliyunoss/AliyunOSSClient.java:181-205 | with no lookup answer, the type is that of the first of the six extensions the name ends with, or `application/octet-stream` |

## Left out

- `validateAliyunAccount`, `validateOSSBucket` and the `OSSClient` construction from the endpoint and credentials (lines 25-47, 113-114) are network calls into the Aliyun SDK. Only the outcome of each delete and put is modelled.
- `AntPathMatcher.match` is not part of this model. It is the uninterpreted parameter `matches`.
- All `listener.getLogger().println` output is log I/O and is not modelled.
- `getTime` (lines 175-177) is a wrapper over commons-lang duration formatting and is not modelled.
- `URLConnection.getFileNameMap()` is a JDK table. Its answer is the input `lookup`.
- Real file-system behaviour is not modelled.
  - Symbolic-link cycles cannot occur, because the tree is finite.
  - `exists()`, `isDirectory()` and `listFiles()` are read from one snapshot, so concurrent changes are not modelled.
  - `new File(path)` is the parameter `fs`.
- What the SDK does with a request (retries, content upload, object metadata) is not modelled. A call either succeeds or fails.
- Upload.Upload: the Java `int` counter could wrap after 2^31 - 1 successful files. The model counts with an unbounded `nat`.
- Upload.MatchedFileKeys: it holds only for a workspace laid out as `listFiles` builds it (`WellFormedWorkspace`). For other trees the matched paths are unconstrained, because the matcher is uninterpreted.
- The per-file loop of `upload`, the pattern loop of `parseWorkspaceFiles` and the stride-2 loop of `getContentType` are separate methods: `UploadFiles`, `BuildPatterns` and `ScanTable`. Each is called once, at the place where the loop stands in the Java.
