/**
 * Pattern handling in AliyunOSSClient.java: turning the `;`-separated
 * rule string into absolute patterns (lines 91-98) and `matchAny`
 * (lines 49-62), an early-exit OR of the Ant path matcher over them.
 *
 * `com.fit2cloud.AntPathMatcher.match` is not part of this model: it is
 * the parameter `matches`, about which nothing is assumed.
 */
module PatternMatching {
  import opened StringUtils
  import opened WorkspaceScan

  /** `AntPathMatcher.match(pattern, path)`. */
  type Matcher = (string, string) -> bool

  /** `fpSeparator`. */
  const Separator: char := ';'

  /** What `matchAny` decides: the name is not blank and some pattern
    * matches it. */
  predicate AnyMatch(matches: Matcher, patterns: seq<string>, fileName: string)
  {
    !IsBlank(fileName) && exists i :: 0 <= i < |patterns| && matches(patterns[i], fileName)
  }

  /** `matchAny`. The ghost result `tried` counts the calls made to the
    * matcher: none for a blank name or an empty pattern list, and the loop
    * stops right after the first pattern that matches. */
  method MatchAny(matches: Matcher, patterns: seq<string>, fileName: string)
    returns (isMatch: bool, ghost tried: nat)
    ensures isMatch == AnyMatch(matches, patterns, fileName)
    ensures IsBlank(fileName) || |patterns| == 0 ==> !isMatch && tried == 0
    ensures tried <= |patterns|
    ensures isMatch ==> 0 < tried && matches(patterns[tried - 1], fileName)
    ensures forall j :: 0 <= j < tried - 1 ==> !matches(patterns[j], fileName)
    ensures !isMatch && !IsBlank(fileName) ==> tried == |patterns|
  {
    isMatch := false;
    tried := 0;
    if IsBlank(fileName) || |patterns| == 0 {
      return;
    }
    for i := 0 to |patterns|
      invariant !isMatch && tried == i
      invariant forall j :: 0 <= j < i ==> !matches(patterns[j], fileName)
    {
      isMatch := matches(patterns[i], fileName);
      tried := tried + 1;
      if isMatch {
        break;
      }
    }
  }

  /** The file filter built at lines 101-106: accept an entry whose
    * absolute path matches one of the patterns. */
  function FilterFor(matches: Matcher, patterns: seq<string>): (accept: Filter)
    ensures forall e: Entry :: accept(e) ==> !IsBlank(e.path) && |patterns| > 0
    ensures forall e: Entry :: accept(e) ==> exists i :: 0 <= i < |patterns| && matches(patterns[i], e.path)
    ensures forall e: Entry, i :: 0 <= i < |patterns| && matches(patterns[i], e.path) && !IsBlank(e.path) ==> accept(e)
  {
    (e: Entry) => AnyMatch(matches, patterns, e.path)
  }

  /** `wsPath` joined in front of every token, in order. */
  function Prefixed(wsPath: string, tokens: seq<string>): seq<string>
  {
    if tokens == [] then []
    else Prefixed(wsPath, tokens[..|tokens| - 1]) + [wsPath + tokens[|tokens| - 1]]
  }

  lemma {:induction false} PrefixedAt(wsPath: string, tokens: seq<string>)
    ensures |Prefixed(wsPath, tokens)| == |tokens|
    ensures forall i :: 0 <= i < |tokens| ==> Prefixed(wsPath, tokens)[i] == wsPath + tokens[i]
  {
    if tokens != [] {
      PrefixedAt(wsPath, tokens[..|tokens| - 1]);
    }
  }

  /** The absolute patterns for a rule string: none when it is blank. */
  function Patterns(filePath: string, wsPath: string): seq<string>
  {
    if IsBlank(filePath) then [] else Prefixed(wsPath, Split(filePath, Separator))
  }

  /** One pattern per non-empty `;`-separated token, in order, each being
    * the workspace path followed by the token. */
  lemma PatternsAreWorkspaceTokens(filePath: string, wsPath: string)
    ensures IsBlank(filePath) ==> Patterns(filePath, wsPath) == []
    ensures !IsBlank(filePath) ==>
              var tokens := Split(filePath, Separator);
              && |Patterns(filePath, wsPath)| == |tokens|
              && forall i :: 0 <= i < |tokens| ==>
                   Patterns(filePath, wsPath)[i] == wsPath + tokens[i] && |tokens[i]| > 0 && Separator !in tokens[i]
  {
    if !IsBlank(filePath) {
      PrefixedAt(wsPath, Split(filePath, Separator));
    }
  }

  /** Every pattern is absolute: it starts with the workspace path. */
  lemma PatternsStartWithWorkspace(filePath: string, wsPath: string)
    ensures forall p :: p in Patterns(filePath, wsPath) ==> StartsWith(p, wsPath)
  {
    PatternsAreWorkspaceTokens(filePath, wsPath);
    forall p | p in Patterns(filePath, wsPath) ensures StartsWith(p, wsPath) {
      var i :| 0 <= i < |Patterns(filePath, wsPath)| && Patterns(filePath, wsPath)[i] == p;
      assert p[..|wsPath|] == wsPath;
    }
  }

  /** The pattern-building loop of `parseWorkspaceFiles` (lines 91-98). */
  method BuildPatterns(filePath: string, wsPath: string) returns (patterns: seq<string>)
    ensures patterns == Patterns(filePath, wsPath)
  {
    var patternTempList: seq<string> := [];
    if !IsBlank(filePath) {
      var tokens := Split(filePath, Separator);
      for i := 0 to |tokens|
        invariant patternTempList == Prefixed(wsPath, tokens[..i])
      {
        assert tokens[..i + 1][..i] == tokens[..i];
        patternTempList := patternTempList + [wsPath + tokens[i]];
      }
      assert tokens[..|tokens|] == tokens;
    }
    patterns := patternTempList;
  }
}
