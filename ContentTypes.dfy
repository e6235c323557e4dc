/**
 * `getContentType` (AliyunOSSClient.java, lines 181-205): the content
 * type of a file name. The JDK's `URLConnection.getFileNameMap()` lookup
 * is not part of this model; its answer is the input `lookup` (`None` for
 * null). When it has no answer, a small table of web file extensions is
 * scanned in order, and `application/octet-stream` is the last resort.
 */
module ContentTypes {
  import opened Wrappers
  import opened StringUtils

  /** `COMMON_CONTENT_TYPES`: extension, type, extension, type, ... */
  const CommonContentTypes: seq<string> := [
    ".js", "application/js",
    ".json", "application/json",
    ".svg", "image/svg+xml",
    ".woff", "application/x-font-woff",
    ".woff2", "application/x-font-woff",
    ".ttf", "application/x-font-ttf"
  ]

  const DefaultContentType: string := "application/octet-stream"

  /** `s.substring(Math.max(0, s.length() - n))`: the last `n` characters,
    * or all of `s` when it is shorter. */
  function Tail(s: string, n: nat): (r: string)
    ensures |r| == if |s| >= n then n else |s|
    ensures |s| <= n ==> r == s
  {
    s[if |s| >= n then |s| - n else 0..]
  }

  /** The type paired with the first extension of `table`, from index `i`
    * on, that the file name's tail equals. */
  function FallbackFrom(table: seq<string>, fileName: string, i: nat): string
    requires |table| % 2 == 0 && i % 2 == 0
    decreases |table| - i
  {
    if i >= |table| then DefaultContentType
    else if Tail(fileName, |table[i]|) == table[i] then table[i + 1]
    else FallbackFrom(table, fileName, i + 2)
  }

  function ContentType(lookup: Option<string>, fileName: string): string
  {
    if lookup.Some? then lookup.value else FallbackFrom(CommonContentTypes, fileName, 0)
  }

  /** The stride-2 scan of lines 195-202 over an extension/type table. */
  method ScanTable(table: seq<string>, fileName: string) returns (contentType: string)
    requires |table| % 2 == 0
    ensures contentType == FallbackFrom(table, fileName, 0)
  {
    var i := 0;
    while i < |table|
      invariant i % 2 == 0 && i <= |table|
      invariant FallbackFrom(table, fileName, i) == FallbackFrom(table, fileName, 0)
    {
      var extension := table[i];
      var beginIndex := if |fileName| - |extension| > 0 then |fileName| - |extension| else 0;
      if fileName[beginIndex..] == extension {
        return table[i + 1];
      }
      i := i + 2;
    }
    contentType := DefaultContentType;
  }

  /** `getContentType`: the lookup's answer when there is one, otherwise
    * the scan of `COMMON_CONTENT_TYPES`. */
  method GetContentType(lookup: Option<string>, fileName: string) returns (contentType: string)
    ensures contentType == ContentType(lookup, fileName)
  {
    if lookup.Some? {
      return lookup.value;
    }
    contentType := ScanTable(CommonContentTypes, fileName);
  }

  /** Comparing the clamped tail is the same as asking whether the name ends
    * with the extension: a name shorter than the extension never equals it. */
  lemma TailIsEndsWith(s: string, extension: string)
    ensures Tail(s, |extension|) == extension <==> EndsWith(s, extension)
  {
    if |s| < |extension| {
      assert |Tail(s, |extension|)| == |s|;
    }
  }

  /** The scan gives the type paired with the first extension of the table
    * that the name ends with. */
  lemma {:induction false} FallbackFirstExtension(table: seq<string>, fileName: string, k: nat)
    requires |table| % 2 == 0 && 2 * k < |table| && EndsWith(fileName, table[2 * k])
    requires forall j :: 0 <= j < k ==> !EndsWith(fileName, table[2 * j])
    ensures FallbackFrom(table, fileName, 0) == table[2 * k + 1]
  {
    var j := 0;
    while j < k
      invariant j <= k
      invariant FallbackFrom(table, fileName, 2 * j) == FallbackFrom(table, fileName, 0)
    {
      TailIsEndsWith(fileName, table[2 * j]);
      j := j + 1;
    }
    TailIsEndsWith(fileName, table[2 * k]);
  }

  /** The scan gives `application/octet-stream` when the name ends with no
    * extension of the table. */
  lemma {:induction false} FallbackDefault(table: seq<string>, fileName: string)
    requires |table| % 2 == 0
    requires forall j :: 0 <= j < |table| / 2 ==> !EndsWith(fileName, table[2 * j])
    ensures FallbackFrom(table, fileName, 0) == DefaultContentType
  {
    var j := |table| / 2;
    while j > 0
      invariant 0 <= j <= |table| / 2
      invariant FallbackFrom(table, fileName, 2 * j) == DefaultContentType
    {
      j := j - 1;
      TailIsEndsWith(fileName, table[2 * j]);
    }
  }

  /** What `getContentType` returns: the lookup's answer when it has one;
    * otherwise the type of the first of the six table extensions the name
    * ends with, or `application/octet-stream` when it ends with none. */
  lemma ContentTypeCases(lookup: Option<string>, fileName: string)
    ensures lookup.Some? ==> ContentType(lookup, fileName) == lookup.value
    ensures lookup.None? ==>
              forall k :: 0 <= k < 6 && EndsWith(fileName, CommonContentTypes[2 * k]) &&
                          (forall j :: 0 <= j < k ==> !EndsWith(fileName, CommonContentTypes[2 * j])) ==>
                ContentType(lookup, fileName) == CommonContentTypes[2 * k + 1]
    ensures lookup.None? && (forall k :: 0 <= k < 6 ==> !EndsWith(fileName, CommonContentTypes[2 * k])) ==>
              ContentType(lookup, fileName) == DefaultContentType
  {
    var table := CommonContentTypes;
    assert |table| == 12;
    if lookup.None? {
      forall k | 0 <= k < 6 && EndsWith(fileName, table[2 * k]) &&
                 (forall j :: 0 <= j < k ==> !EndsWith(fileName, table[2 * j]))
        ensures FallbackFrom(table, fileName, 0) == table[2 * k + 1]
      {
        FallbackFirstExtension(table, fileName, k);
      }
      if forall k :: 0 <= k < 6 ==> !EndsWith(fileName, table[2 * k]) {
        FallbackDefault(table, fileName);
      }
    }
  }
}
