/**
 * The string operations the upload step relies on, defined on Dafny
 * strings so that their exact behaviour is part of the model: the Apache
 * commons-lang `StringUtils` helpers isBlank, startsWith, endsWith,
 * substringAfter and split, and `java.lang.String.indexOf`, which
 * substringAfter uses.
 * A Java `null` argument is represented by the empty string: every call
 * site in the model treats the two alike.
 */
module StringUtils {
  import opened Wrappers

  /** `Character.isWhitespace`: the ASCII controls tab to carriage return,
    * the four information separators, and the Unicode space, line and
    * paragraph separators except the no-break spaces. */
  predicate IsWhitespace(c: char)
  {
    || c == ' '
    || ('\t' <= c <= '\r')
    || ('\U{1C}' <= c <= '\U{1F}')
    || c == '\U{1680}'
    || ('\U{2000}' <= c <= '\U{2006}')
    || ('\U{2008}' <= c <= '\U{200A}')
    || c == '\U{2028}' || c == '\U{2029}' || c == '\U{205F}' || c == '\U{3000}'
  }

  /** `StringUtils.isBlank`: empty or whitespace only. */
  predicate IsBlank(s: string)
    ensures s == [] ==> IsBlank(s)
    ensures (exists i :: 0 <= i < |s| && !IsWhitespace(s[i])) ==> !IsBlank(s)
  {
    forall i :: 0 <= i < |s| ==> IsWhitespace(s[i])
  }

  predicate StartsWith(s: string, prefix: string)
  {
    |prefix| <= |s| && s[..|prefix|] == prefix
  }

  predicate EndsWith(s: string, suffix: string)
  {
    |suffix| <= |s| && s[|s| - |suffix|..] == suffix
  }

  /** `sub` occurs in `s` starting at index `k`. */
  predicate OccursAt(s: string, sub: string, k: nat)
  {
    k + |sub| <= |s| && s[k..k + |sub|] == sub
  }

  /** `p` is the index of the first occurrence of `sub` in `s`. */
  predicate FirstOccurrence(s: string, sub: string, p: nat)
  {
    OccursAt(s, sub, p) && forall k: nat :: k < p ==> !OccursAt(s, sub, k)
  }

  /** `String.indexOf(sub, from)` for `from <= |s|`, the only calls the
    * model makes: the first occurrence at or after `from`. (For `from`
    * beyond the end Java answers an empty `sub` with `s.length()`, which
    * this search does not model.) */
  function IndexOfFrom(s: string, sub: string, from: nat): (r: Option<nat>)
    ensures r.Some? ==> from <= r.value && OccursAt(s, sub, r.value)
    ensures r.Some? ==> forall k: nat :: from <= k < r.value ==> !OccursAt(s, sub, k)
    ensures r.None? ==> forall k: nat :: from <= k ==> !OccursAt(s, sub, k)
    decreases |s| - from
  {
    if from + |sub| > |s| then None
    else if s[from..from + |sub|] == sub then Some(from)
    else IndexOfFrom(s, sub, from + 1)
  }

  /** `String.indexOf(sub)`, with `None` for Java's -1. */
  function IndexOf(s: string, sub: string): (r: Option<nat>)
    ensures r.Some? <==> exists k: nat :: OccursAt(s, sub, k)
    ensures r.Some? ==> FirstOccurrence(s, sub, r.value)
  {
    IndexOfFrom(s, sub, 0)
  }

  /** `StringUtils.substringAfter`: the text after the first occurrence of
    * `separator`, or "" when it does not occur. */
  function SubstringAfter(s: string, separator: string): (r: string)
    ensures forall p: nat :: FirstOccurrence(s, separator, p) ==> r == s[p + |separator|..]
    ensures (forall k: nat :: !OccursAt(s, separator, k)) ==> r == ""
  {
    if |s| == 0 then s
    else
      match IndexOf(s, separator)
      case None => ""
      case Some(p) => s[p + |separator|..]
  }

  /** Removing a prefix with substringAfter gives back exactly the rest. */
  lemma SubstringAfterPrefix(prefix: string, rest: string)
    ensures SubstringAfter(prefix + rest, prefix) == rest
  {
    var s := prefix + rest;
    assert s[..|prefix|] == prefix;
    assert FirstOccurrence(s, prefix, 0);
  }

  /** Length of the leading run of characters other than `sep`. */
  function TokenLength(s: string, sep: char): (n: nat)
    ensures n <= |s|
    ensures forall i :: 0 <= i < n ==> s[i] != sep
    ensures n < |s| ==> s[n] == sep
  {
    if s == [] || s[0] == sep then 0 else 1 + TokenLength(s[1..], sep)
  }

  /** `StringUtils.split(s, sep)` for a one-character separator: the maximal
    * runs of non-separator characters, in order; adjacent separators count
    * as one and no empty token is produced. */
  function Split(s: string, sep: char): (r: seq<string>)
    ensures forall i :: 0 <= i < |r| ==> |r[i]| > 0 && sep !in r[i]
    decreases |s|
  {
    if s == [] then []
    else if s[0] == sep then Split(s[1..], sep)
    else
      var n := TokenLength(s, sep);
      [s[..n]] + Split(s[n..], sep)
  }

  lemma {:induction false} TokenLengthAppend(a: string, c: string, sep: char)
    ensures TokenLength(a + c, sep) ==
            if TokenLength(a, sep) < |a| then TokenLength(a, sep) else |a| + TokenLength(c, sep)
    decreases |a|
  {
    if a == [] {
      assert a + c == c;
    } else if a[0] != sep {
      assert (a + c)[1..] == a[1..] + c;
      TokenLengthAppend(a[1..], c, sep);
    }
  }

  /** A separator cuts the input into two parts that split independently. */
  lemma {:induction false} SplitAtSeparator(a: string, b: string, sep: char)
    ensures Split(a + [sep] + b, sep) == Split(a, sep) + Split(b, sep)
    decreases |a|
  {
    var s := a + [sep] + b;
    if a == [] {
      assert s == [sep] + b;
      assert s[1..] == b;
    } else if a[0] == sep {
      assert s[1..] == a[1..] + [sep] + b;
      SplitAtSeparator(a[1..], b, sep);
    } else {
      var m := TokenLength(a, sep);
      TokenLengthAppend(a, [sep] + b, sep);
      assert s == a + ([sep] + b);
      if m < |a| {
        assert s[..m] == a[..m];
        assert s[m..] == a[m..] + [sep] + b;
        SplitAtSeparator(a[m..], b, sep);
      } else {
        assert TokenLength([sep] + b, sep) == 0;
        assert s[..m] == a;
        assert s[m..] == [sep] + b;
        assert s[m..][1..] == b;
        assert a[..m] == a && a[m..] == [];
        assert Split(a, sep) == [a];
        assert Split(s, sep) == [a] + Split(s[m..], sep);
      }
    }
  }

  /** A string without separators is one token, or none when empty. */
  lemma {:induction false} SplitSeparatorFree(s: string, sep: char)
    requires sep !in s
    ensures Split(s, sep) == if s == [] then [] else [s]
  {
    if s != [] {
      var n := TokenLength(s, sep);
      assert n == |s|;
      assert s[..n] == s;
      assert s[n..] == [];
    }
  }

  /** The tokens joined with the separator between them. */
  function JoinWith(tokens: seq<string>, sep: char): string
  {
    if |tokens| == 0 then ""
    else if |tokens| == 1 then tokens[0]
    else tokens[0] + [sep] + JoinWith(tokens[1..], sep)
  }

  /** Splitting undoes joining when every token is non-empty and free of
    * the separator. */
  lemma {:induction false} SplitJoin(tokens: seq<string>, sep: char)
    requires forall i :: 0 <= i < |tokens| ==> |tokens[i]| > 0 && sep !in tokens[i]
    ensures Split(JoinWith(tokens, sep), sep) == tokens
  {
    if |tokens| == 1 {
      SplitSeparatorFree(tokens[0], sep);
    } else if |tokens| > 1 {
      SplitSeparatorFree(tokens[0], sep);
      SplitJoin(tokens[1..], sep);
      SplitAtSeparator(tokens[0], JoinWith(tokens[1..], sep), sep);
      assert tokens == [tokens[0]] + tokens[1..];
    }
  }
}
