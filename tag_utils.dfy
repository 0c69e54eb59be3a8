/**
 * Splitting a tag such as `B-PER` into its token function (`B`) and its span
 * type (`PER`), and rewriting a string prefix (iobes/utils.py).
 */
module TagUtils {
  import opened Wrappers

  /** The default separator between token function and span type. */
  const Sep: string := "-"

  predicate StartsWith(s: string, prefix: string) {
    |prefix| <= |s| && s[..|prefix|] == prefix
  }

  /** `sep` occurs in `token` starting at index `i`. */
  predicate OccursAt(token: string, sep: string, i: nat) {
    i + |sep| <= |token| && token[i..i + |sep|] == sep
  }

  /** Python's `sep in token` for a non-empty `sep`. */
  predicate Contains(token: string, sep: string) {
    exists i: nat :: i <= |token| && OccursAt(token, sep, i)
  }

  /** The first occurrence of `sep` in `token` at or after `from`. */
  function FindFrom(token: string, sep: string, from: nat): (r: Option<nat>)
    decreases |token| - from
    ensures r.Some? ==> from <= r.value && OccursAt(token, sep, r.value)
    ensures r.Some? ==> forall j: nat :: from <= j < r.value ==> !OccursAt(token, sep, j)
    ensures r.None? ==> forall j: nat :: from <= j ==> !OccursAt(token, sep, j)
  {
    if from + |sep| > |token| then None
    else if token[from..from + |sep|] == sep then Some(from)
    else FindFrom(token, sep, from + 1)
  }

  function Find(token: string, sep: string): (r: Option<nat>)
    ensures r.None? <==> !Contains(token, sep)
    ensures r.Some? ==> OccursAt(token, sep, r.value)
    ensures r.Some? ==> forall j: nat :: j < r.value ==> !OccursAt(token, sep, j)
  {
    FindFrom(token, sep, 0)
  }

  /** The part after the first separator, or the whole token when there is none. */
  function ExtractType(token: string, sep: string): string
    requires |sep| > 0
  {
    match Find(token, sep)
    case None => token
    case Some(i) => token[i + |sep|..]
  }

  /** The part before the first separator, or the whole token when there is none. */
  function ExtractFunction(token: string, sep: string): string
    requires |sep| > 0
  {
    match Find(token, sep)
    case None => token
    case Some(i) => token[..i]
  }

  /** `sub` in place of the leading `pattern`, or the string unchanged. */
  function ReplacePrefix(s: string, pattern: string, sub: string): string {
    if StartsWith(s, pattern) then sub + s[|pattern|..] else s
  }

  /** Without a separator both extractors give back the whole token. */
  lemma NoSeparatorKeepsToken(token: string, sep: string)
    requires |sep| > 0 && !Contains(token, sep)
    ensures ExtractFunction(token, sep) == token
    ensures ExtractType(token, sep) == token
  {
  }

  /** With a separator, function + sep + type rebuilds the token, and the function part holds no separator. */
  lemma SplitRejoins(token: string, sep: string)
    requires |sep| > 0 && Contains(token, sep)
    ensures ExtractFunction(token, sep) + sep + ExtractType(token, sep) == token
    ensures !Contains(ExtractFunction(token, sep), sep)
  {
    var i := Find(token, sep).value;
    assert token[..i] + token[i..i + |sep|] + token[i + |sep|..] == token;
    var f := token[..i];
    if Contains(f, sep) {
      var j: nat :| j <= |f| && OccursAt(f, sep, j);
      assert j + |sep| <= |f| && f[j..j + |sep|] == sep;
      assert token[j..j + |sep|] == f[j..j + |sep|];
      assert OccursAt(token, sep, j);
    }
  }

  /**
   * The split is on the first separator only: for `f + sep + t`, where no
   * separator starts inside `f`, the function is `f` and the type is `t`
   * (separators inside `t` stay in the type).
   */
  lemma SplitAtFirst(f: string, sep: string, t: string)
    requires |sep| > 0
    requires !Contains(f + sep[..|sep| - 1], sep)
    ensures ExtractFunction(f + sep + t, sep) == f
    ensures ExtractType(f + sep + t, sep) == t
  {
    var token := f + sep + t;
    assert OccursAt(token, sep, |f|) by {
      assert token[|f|..|f| + |sep|] == sep;
    }
    var i := Find(token, sep).value;
    if i < |f| {
      var g := f + sep[..|sep| - 1];
      assert i + |sep| <= |g|;
      assert g[i..i + |sep|] == token[i..i + |sep|];
      assert OccursAt(g, sep, i);
      assert false;
    }
    assert i == |f|;
    assert token[..i] == f;
    assert token[i + |sep|..] == t;
  }

  /** The one-character case used throughout: a function without the separator character. */
  lemma SplitSingleChar(f: string, c: char, t: string)
    requires c !in f
    ensures ExtractFunction(f + [c] + t, [c]) == f
    ensures ExtractType(f + [c] + t, [c]) == t
  {
    assert f + [c][..0] == f;
    forall j: nat | j <= |f| ensures !OccursAt(f, [c], j) {
      if j + 1 <= |f| { assert f[j..j + 1] == [f[j]]; }
    }
    SplitAtFirst(f, [c], t);
  }

  /** A tag built from a one-letter code and a type splits back into both, for the default separator. */
  lemma CodeTagSplits(code: string, t: string)
    requires '-' !in code
    ensures ExtractFunction(code + Sep + t, Sep) == code
    ensures ExtractType(code + Sep + t, Sep) == t
  {
    SplitSingleChar(code, '-', t);
  }

  /** A tag with no '-' splits into itself twice (so `O` has function `O` and type `O`). */
  lemma BareTagSplits(token: string)
    requires '-' !in token
    ensures ExtractFunction(token, Sep) == token
    ensures ExtractType(token, Sep) == token
  {
    forall j: nat | j <= |token| ensures !OccursAt(token, Sep, j) {
      if j + 1 <= |token| { assert token[j..j + 1] == [token[j]]; }
    }
  }

  /** When the prefix matches it is replaced; replacing it back restores the string. */
  lemma ReplacePrefixMatch(s: string, pattern: string, sub: string)
    requires StartsWith(s, pattern)
    ensures ReplacePrefix(s, pattern, sub) == sub + s[|pattern|..]
    ensures StartsWith(ReplacePrefix(s, pattern, sub), sub)
    ensures ReplacePrefix(ReplacePrefix(s, pattern, sub), sub, pattern) == s
  {
    var r := sub + s[|pattern|..];
    assert r[..|sub|] == sub;
    assert r[|sub|..] == s[|pattern|..];
    assert pattern + s[|pattern|..] == s;
  }

  lemma ReplacePrefixNoMatch(s: string, pattern: string, sub: string)
    requires !StartsWith(s, pattern)
    ensures ReplacePrefix(s, pattern, sub) == s
  {
  }
}
