/** Small shared vocabulary: optional values and the string helpers the Go
    code takes from `strings` and `path/filepath`. */
module Wrappers {

  /** A value that may be absent. */
  datatype Option<+T> = None | Some(value: T) {

    /** The carried value, or `default` when there is none. */
    function GetOr(default: T): T {
      match this
      case Some(v) => v
      case None => default
    }
  }
}

module Text {

  /** `strings.HasPrefix(s, prefix)`. */
  predicate HasPrefix(s: string, prefix: string) {
    |prefix| <= |s| && s[..|prefix|] == prefix
  }

  /** Each character of a prefix is the character at that position. */
  lemma PrefixAt(s: string, prefix: string, i: int)
    requires HasPrefix(s, prefix) && 0 <= i < |prefix|
    ensures s[i] == prefix[i]
  {
    assert s[..|prefix|][i] == s[i];
  }

  /** One differing character rules a prefix out. */
  lemma NotPrefixAt(s: string, prefix: string, i: int)
    requires 0 <= i < |prefix| && i < |s| && s[i] != prefix[i]
    ensures !HasPrefix(s, prefix)
  {
    if |prefix| <= |s| {
      assert s[..|prefix|][i] == s[i];
    }
  }

  /** `strings.HasSuffix(s, suffix)`. */
  predicate HasSuffix(s: string, suffix: string) {
    |suffix| <= |s| && s[|s| - |suffix|..] == suffix
  }

  /** The text after the last `/` of `s` (all of `s` when it has none). */
  function LastElement(s: string): (e: string)
    ensures '/' !in e
    ensures HasSuffix(s, e)
    ensures |e| < |s| ==> s[|s| - |e| - 1] == '/'
    decreases |s|
  {
    if |s| == 0 then ""
    else if s[|s| - 1] == '/' then ""
    else
      var p := s[..|s| - 1];
      var r := LastElement(p);
      assert s[|s| - |r| - 1..] == p[|p| - |r|..] + [s[|s| - 1]];
      r + [s[|s| - 1]]
  }

  /** `s` with every trailing `/` removed. */
  function TrimTrailingSlashes(s: string): (t: string)
    ensures HasPrefix(s, t)
    ensures |t| == 0 || t[|t| - 1] != '/'
    ensures forall i :: |t| <= i < |s| ==> s[i] == '/'
    decreases |s|
  {
    if |s| > 0 && s[|s| - 1] == '/' then TrimTrailingSlashes(s[..|s| - 1]) else s
  }

  /** `filepath.Base` on a slash-separated path: "." for the empty path,
      "/" for a path of slashes only, otherwise the last element once
      trailing slashes are dropped. */
  function BaseName(path: string): (b: string)
    ensures |b| > 0
    ensures path != "" && '/' !in path ==> b == path
  {
    if path == "" then "."
    else
      var t := TrimTrailingSlashes(path);
      if t == "" then "/" else LastElement(t)
  }

  /** The base name of a path that does not end in `/` is the text after
      its last `/`. */
  lemma BaseNameAfterLastSlash(path: string, k: int)
    requires 0 <= k < |path| - 1 && path[k] == '/'
    requires forall j :: k < j < |path| ==> path[j] != '/'
    ensures BaseName(path) == path[k + 1..]
  {
    assert TrimTrailingSlashes(path) == path;
  }

  /** The base name of `dir/name`, for a non-empty name without `/`, is
      the name. */
  lemma BaseNameOfJoin(dir: string, name: string)
    requires name != "" && '/' !in name
    ensures BaseName(dir + "/" + name) == name
  {
    var path := dir + "/" + name;
    forall j | |dir| < j < |path|
      ensures path[j] != '/'
    {
      assert path[j] == name[j - |dir| - 1];
    }
    BaseNameAfterLastSlash(path, |dir|);
    assert path[|dir| + 1..] == name;
  }

  /** Names starting with a dot are hidden. */
  predicate IsHiddenName(name: string) {
    |name| > 0 && name[0] == '.'
  }
}
