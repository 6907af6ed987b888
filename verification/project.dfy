/** Which files of a project directory the CLI uploads
    (cli/internal/files/project.go): the ignore-pattern test `shouldIgnore`
    and the per-entry rule of `ReadProjectFiles`.

    The directory walk and file reads are I/O: the walk is given as the list
    of entries it visits, each with its path relative to the project
    directory, whether it is a directory, and the file's content (None when
    reading it fails). */
module ProjectFiles {
  import opened Wrappers
  import opened Text

  /** The fixed ignore list, in the order it is tried. */
  const IgnorePatterns: seq<string> := [".git/", "__pycache__/", "*.pyc", ".env", "node_modules/", ".backend-im/"]

  /** `filepath.Match` for patterns built from `*` and literal characters
      (all six ignore patterns are): `*` matches any run of characters
      other than `/`, every other character matches itself. */
  function GlobMatch(pattern: string, name: string): bool
    decreases |pattern| + |name|
  {
    if |pattern| == 0 then |name| == 0
    else if pattern[0] == '*' then
      GlobMatch(pattern[1..], name) || (|name| > 0 && name[0] != '/' && GlobMatch(pattern, name[1..]))
    else |name| > 0 && name[0] == pattern[0] && GlobMatch(pattern[1..], name[1..])
  }

  /** A pattern without `*` matches exactly itself. */
  lemma {:induction false} GlobLiteral(pattern: string, name: string)
    requires '*' !in pattern
    ensures GlobMatch(pattern, name) <==> name == pattern
    decreases |pattern|
  {
    if |pattern| > 0 && |name| > 0 {
      assert '*' !in pattern[1..];
      GlobLiteral(pattern[1..], name[1..]);
      assert name == [name[0]] + name[1..];
      assert pattern == [pattern[0]] + pattern[1..];
    }
  }

  /** `*` followed by a literal without `/` matches exactly the names
      without `/` that end in that literal. */
  lemma {:induction false} GlobStarLiteral(lit: string, name: string)
    requires '*' !in lit && '/' !in lit
    ensures GlobMatch(['*'] + lit, name) <==> '/' !in name && HasSuffix(name, lit)
    decreases |name|
  {
    var p := ['*'] + lit;
    assert p[0] == '*' && p[1..] == lit;
    GlobLiteral(lit, name);
    if |name| > 0 {
      GlobStarLiteral(lit, name[1..]);
      assert name == [name[0]] + name[1..];
      if |lit| < |name| {
        assert name[|name| - |lit|..] == name[1..][|name[1..]| - |lit|..];
      }
      if HasSuffix(name, lit) && |lit| == |name| {
        assert name == lit;
      }
    }
  }

  /** Whether one ignore pattern rules `path` out: a glob match, or, for a
      pattern ending in `/`, the path starting with it. */
  predicate PatternIgnores(pattern: string, path: string) {
    || GlobMatch(pattern, path)
    || (|pattern| > 0 && pattern[|pattern| - 1] == '/' && |path| >= |pattern| && path[..|pattern|] == pattern)
  }

  /** Whether some pattern of `patterns` rules `path` out, trying them in
      order. */
  function AnyPatternIgnores(patterns: seq<string>, path: string): (b: bool)
    ensures b <==> exists i :: 0 <= i < |patterns| && PatternIgnores(patterns[i], path)
    decreases |patterns|
  {
    if |patterns| == 0 then false
    else if PatternIgnores(patterns[0], path) then true
    else
      var rest := AnyPatternIgnores(patterns[1..], path);
      assert forall i :: 1 <= i < |patterns| ==> patterns[i] == patterns[1..][i - 1];
      rest
  }

  /** What each of the six patterns rules out. */
  lemma PatternFacts(path: string)
    ensures PatternIgnores(".git/", path) <==> HasPrefix(path, ".git/")
    ensures PatternIgnores("__pycache__/", path) <==> HasPrefix(path, "__pycache__/")
    ensures PatternIgnores("node_modules/", path) <==> HasPrefix(path, "node_modules/")
    ensures PatternIgnores(".backend-im/", path) <==> HasPrefix(path, ".backend-im/")
    ensures PatternIgnores("*.pyc", path) <==> '/' !in path && HasSuffix(path, ".pyc")
    ensures PatternIgnores(".env", path) <==> path == ".env"
  {
    GlobLiteral(".git/", path);
    GlobLiteral("__pycache__/", path);
    GlobLiteral("node_modules/", path);
    GlobLiteral(".backend-im/", path);
    GlobLiteral(".env", path);
    assert ['*'] + ".pyc" == "*.pyc";
    GlobStarLiteral(".pyc", path);
  }

  /** `shouldIgnore`: the path starts with one of the four ignored
      directories (anchored at the project root, not anywhere in the path),
      is exactly `.env`, or is a `.pyc` name with no directory part. */
  function ShouldIgnore(path: string): (ignored: bool)
    ensures ignored <==>
      || HasPrefix(path, ".git/")
      || HasPrefix(path, "__pycache__/")
      || HasPrefix(path, "node_modules/")
      || HasPrefix(path, ".backend-im/")
      || path == ".env"
      || ('/' !in path && HasSuffix(path, ".pyc"))
  {
    PatternFacts(path);
    var r := AnyPatternIgnores(IgnorePatterns, path);
    assert r <==> exists i :: 0 <= i < 6 && PatternIgnores(IgnorePatterns[i], path);
    assert r <==>
      || PatternIgnores(IgnorePatterns[0], path) || PatternIgnores(IgnorePatterns[1], path)
      || PatternIgnores(IgnorePatterns[2], path) || PatternIgnores(IgnorePatterns[3], path)
      || PatternIgnores(IgnorePatterns[4], path) || PatternIgnores(IgnorePatterns[5], path);
    r
  }

  /** The directory patterns are anchored at the project root. */
  lemma ShouldIgnoreDirectoryExamples()
    ensures ShouldIgnore("node_modules/left-pad/index.js")
    ensures !ShouldIgnore("sub/node_modules/x.js")
  {
    var p := "node_modules/left-pad/index.js";
    assert HasPrefix(p, "node_modules/");
    var q := "sub/node_modules/x.js";
    assert q[0] == 's' && q[3] == '/';
    assert !HasPrefix(q, ".git/") && !HasPrefix(q, "__pycache__/");
    assert !HasPrefix(q, "node_modules/") && !HasPrefix(q, ".backend-im/");
  }

  /** `*.pyc` matches only at the top level. */
  lemma ShouldIgnorePycExamples()
    ensures ShouldIgnore("a.pyc")
    ensures !ShouldIgnore("pkg/a.pyc")
  {
    var p := "a.pyc";
    assert '/' !in p && HasSuffix(p, ".pyc");
    var q := "pkg/a.pyc";
    assert q[0] == 'p' && q[3] == '/';
    assert !HasPrefix(q, ".git/") && !HasPrefix(q, "__pycache__/");
    assert !HasPrefix(q, "node_modules/") && !HasPrefix(q, ".backend-im/");
  }

  /** `.env` is ignored only as that exact path. */
  lemma ShouldIgnoreEnvExamples()
    ensures ShouldIgnore(".env")
    ensures !ShouldIgnore(".env.local")
  {
    var q := ".env.local";
    assert q[1] == 'e' && q[4] == '.' && q[9] == 'l';
    assert !HasPrefix(q, ".git/") && !HasPrefix(q, "__pycache__/");
    assert !HasPrefix(q, "node_modules/") && !HasPrefix(q, ".backend-im/");
    assert q != ".env" && !HasSuffix(q, ".pyc");
  }

  /** An ordinary source file is kept. */
  lemma ShouldIgnoreKeepsSource()
    ensures !ShouldIgnore("main.py")
  {
    var q := "main.py";
    assert q[0] == 'm' && q[6] == 'y';
    assert !HasPrefix(q, ".git/") && !HasPrefix(q, "__pycache__/");
    assert !HasPrefix(q, "node_modules/") && !HasPrefix(q, ".backend-im/");
    assert q != ".env" && !HasSuffix(q, ".pyc");
  }

  /** One entry the walk visits. */
  datatype Entry = Entry(relPath: string, isDir: bool, content: Option<string>)

  /** The walk callback's rule: an entry is read when it is not a
      directory, its base name is not hidden, and its path is not ignored. */
  predicate Included(e: Entry) {
    !e.isDir && !IsHiddenName(BaseName(e.relPath)) && !ShouldIgnore(e.relPath)
  }

  /** Only a hidden base name is skipped: files inside hidden directories
      are read unless a pattern rules them out. */
  lemma IncludedHiddenDirectoryExample(c: Option<string>)
    ensures Included(Entry(".github/ci.yml", false, c))
    ensures !Included(Entry("src/.secret", false, c))
  {
    GithubNotIgnored();
    GithubBaseName();
    SecretBaseName();
  }

  /** `*.pyc` files below the top level are read; directories never are. */
  lemma IncludedPycExample(c: Option<string>)
    ensures Included(Entry("pkg/cache.pyc", false, c))
    ensures !Included(Entry("src", true, c))
  {
    PycNotIgnored();
    PycBaseName();
  }

  /** The base name of `.github/ci.yml`. */
  lemma GithubBaseName()
    ensures BaseName(".github/ci.yml") == "ci.yml"
  {
    assert ".github/ci.yml" == ".github" + "/" + "ci.yml";
    BaseNameOfJoin(".github", "ci.yml");
  }

  /** `.github/ci.yml` matches none of the patterns. */
  lemma GithubNotIgnored()
    ensures !ShouldIgnore(".github/ci.yml")
  {
    var p := ".github/ci.yml";
    assert p[7] == '/';
    NotPrefixAt(p, ".git/", 4);
    NotPrefixAt(p, "__pycache__/", 0);
    NotPrefixAt(p, "node_modules/", 0);
    NotPrefixAt(p, ".backend-im/", 1);
  }

  /** The base name of `src/.secret`. */
  lemma SecretBaseName()
    ensures BaseName("src/.secret") == ".secret"
  {
    assert "src/.secret" == "src" + "/" + ".secret";
    BaseNameOfJoin("src", ".secret");
  }

  /** The base name of `pkg/cache.pyc`. */
  lemma PycBaseName()
    ensures BaseName("pkg/cache.pyc") == "cache.pyc"
  {
    assert "pkg/cache.pyc" == "pkg" + "/" + "cache.pyc";
    BaseNameOfJoin("pkg", "cache.pyc");
  }

  /** `pkg/cache.pyc` is below the root, so the `*.pyc` pattern does not
      match it. */
  lemma PycNotIgnored()
    ensures !ShouldIgnore("pkg/cache.pyc")
  {
    var q := "pkg/cache.pyc";
    assert q[3] == '/';
    NotPrefixAt(q, ".git/", 0);
    NotPrefixAt(q, "__pycache__/", 0);
    NotPrefixAt(q, "node_modules/", 0);
    NotPrefixAt(q, ".backend-im/", 0);
  }

  /** Entry `i` is the last entry `keep` selects with its path among the
      first `n` entries. */
  predicate LastKeptBefore(entries: seq<Entry>, keep: Entry -> bool, i: int, n: int)
    requires 0 <= i < n <= |entries|
  {
    keep(entries[i]) &&
    forall l :: i < l < n && keep(entries[l]) ==> entries[l].relPath != entries[i].relPath
  }

  /** Storing the content of a selected entry `i` keeps every entry that is
      still the last of its path stored with its content. */
  lemma StoreKeptEntry(entries: seq<Entry>, keep: Entry -> bool, files: map<string, string>, i: int)
    requires 0 <= i < |entries| && keep(entries[i]) && entries[i].content.Some?
    requires forall j :: 0 <= j < i && LastKeptBefore(entries, keep, j, i) ==>
      entries[j].relPath in files && entries[j].content == Some(files[entries[j].relPath])
    ensures forall j :: 0 <= j < i + 1 && LastKeptBefore(entries, keep, j, i + 1) ==>
      var stored := files[entries[i].relPath := entries[i].content.value];
      entries[j].relPath in stored && entries[j].content == Some(stored[entries[j].relPath])
  {
    var stored := files[entries[i].relPath := entries[i].content.value];
    forall j | 0 <= j < i + 1 && LastKeptBefore(entries, keep, j, i + 1)
      ensures entries[j].relPath in stored && entries[j].content == Some(stored[entries[j].relPath])
    {
      if j < i {
        assert entries[j].relPath != entries[i].relPath;
        assert LastKeptBefore(entries, keep, j, i);
      }
    }
  }

  /** Passing over an entry `keep` does not select keeps every entry that
      was the last of its path stored with its content. */
  lemma SkipEntry(entries: seq<Entry>, keep: Entry -> bool, files: map<string, string>, i: int)
    requires 0 <= i < |entries| && !keep(entries[i])
    requires forall j :: 0 <= j < i && LastKeptBefore(entries, keep, j, i) ==>
      entries[j].relPath in files && entries[j].content == Some(files[entries[j].relPath])
    ensures forall j :: 0 <= j < i + 1 && LastKeptBefore(entries, keep, j, i + 1) ==>
      entries[j].relPath in files && entries[j].content == Some(files[entries[j].relPath])
  {
    forall j | 0 <= j < i + 1 && LastKeptBefore(entries, keep, j, i + 1)
      ensures entries[j].relPath in files && entries[j].content == Some(files[entries[j].relPath])
    {
      assert LastKeptBefore(entries, keep, j, i);
    }
  }

  /** The walk with an arbitrary selection rule: the map from relative path
      to content of every selected entry, or the path of the first selected
      entry whose content cannot be read. */
  method CollectFiles(entries: seq<Entry>, keep: Entry -> bool) returns (files: map<string, string>, unreadable: Option<string>)
    ensures unreadable.None? ==>
      forall k :: k in files <==> exists i :: 0 <= i < |entries| && keep(entries[i]) && entries[i].relPath == k
    ensures unreadable.None? ==>
      forall i :: 0 <= i < |entries| && LastKeptBefore(entries, keep, i, |entries|) ==>
        entries[i].content == Some(files[entries[i].relPath])
    ensures unreadable.Some? <==>
      exists i :: 0 <= i < |entries| && keep(entries[i]) && entries[i].content.None?
    ensures unreadable.Some? ==>
      exists i :: 0 <= i < |entries| && keep(entries[i]) && entries[i].content.None? &&
        entries[i].relPath == unreadable.value &&
        forall j :: 0 <= j < i && keep(entries[j]) ==> entries[j].content.Some?
  {
    files := map[];
    var i := 0;
    while i < |entries|
      invariant 0 <= i <= |entries|
      invariant forall j :: 0 <= j < i && keep(entries[j]) ==> entries[j].content.Some?
      invariant forall k :: k in files <==> exists j :: 0 <= j < i && keep(entries[j]) && entries[j].relPath == k
      invariant forall j :: 0 <= j < i && LastKeptBefore(entries, keep, j, i) ==>
        entries[j].content == Some(files[entries[j].relPath])
    {
      var e := entries[i];
      if keep(e) {
        if e.content.None? {
          return files, Some(e.relPath);
        }
        StoreKeptEntry(entries, keep, files, i);
        files := files[e.relPath := e.content.value];
      } else {
        SkipEntry(entries, keep, files, i);
      }
      i := i + 1;
    }
    return files, None;
  }

  /** `ReadProjectFiles` over the walk's entries: the map from relative
      path to content of every included entry, or the path of the first
      included file that cannot be read. */
  method ReadProjectFiles(entries: seq<Entry>) returns (files: map<string, string>, unreadable: Option<string>)
    // the keys are exactly the included paths
    ensures unreadable.None? ==>
      forall k :: k in files <==> exists i :: 0 <= i < |entries| && Included(entries[i]) && entries[i].relPath == k
    // contents are stored unchanged
    ensures unreadable.None? ==>
      forall i :: 0 <= i < |entries| && LastKeptBefore(entries, Included, i, |entries|) ==>
        entries[i].content == Some(files[entries[i].relPath])
    // a read failure names the first included entry whose content is missing
    ensures unreadable.Some? <==>
      exists i :: 0 <= i < |entries| && Included(entries[i]) && entries[i].content.None?
    ensures unreadable.Some? ==>
      exists i :: 0 <= i < |entries| && Included(entries[i]) && entries[i].content.None? &&
        entries[i].relPath == unreadable.value &&
        forall j :: 0 <= j < i && Included(entries[j]) ==> entries[j].content.Some?
  {
    files, unreadable := CollectFiles(entries, Included);
  }
}
