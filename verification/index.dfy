/** The selection predicates of the flag-driven variant of the tool (index.ts).
    The parsed command-line options `includeAll` and `extensions` are parameters;
    `path.normalize` is taken as the identity, which it is on normal paths and on every
    configured pattern. */
module Index {
  import opened Text

  /** Entries that exclude a path: an entry ending in `/` is a directory prefix,
      any other entry is a literal suffix (there is no globbing). */
  const StandardExclusions: seq<string> := ["node_modules/", ".git/", ".DS_Store", "dist/", "build/", "*.log"]

  /** Entries that include a path wherever they occur in it. */
  const CustomIncludes: seq<string> := ["package.json", "../../README.md", "README.md"]

  /** The default value of the `--extensions` option. */
  const DefaultExtensions: seq<string> := [".ts", ".tsx"]

  /** Backslashes turned into forward slashes. */
  function Slashed(s: string): (r: string)
    ensures '\\' !in r
    ensures |r| == |s|
  {
    ReplaceChar(s, '\\', '/')
  }

  /** Whether one exclusion entry rules out one path, both compared with slashes normalised. */
  predicate MatchesExclusion(exclusion: string, filePath: string)
    ensures MatchesExclusion(exclusion, filePath) ==> |exclusion| <= |filePath|
  {
    var e := Slashed(exclusion);
    var f := Slashed(filePath);
    if EndsWith(e, "/") then StartsWith(f, e) else EndsWith(f, e)
  }

  /** Some entry of `exclusions` rules out `filePath`. */
  predicate ExcludedBy(exclusions: seq<string>, filePath: string) {
    exists i :: 0 <= i < |exclusions| && MatchesExclusion(exclusions[i], filePath)
  }

  /** `isExcluded`: never with `includeAll`, otherwise by the standard exclusions. */
  predicate IsExcluded(filePath: string, includeAll: bool) {
    !includeAll && ExcludedBy(StandardExclusions, filePath)
  }

  /** Some include entry occurs in the raw path, or the raw path ends with some extension. */
  predicate IncludedBy(includes: seq<string>, extensions: seq<string>, filePath: string) {
    || (exists i :: 0 <= i < |includes| && Contains(filePath, includes[i]))
    || (exists i :: 0 <= i < |extensions| && EndsWith(filePath, extensions[i]))
  }

  /** `isIncluded`: always with `includeAll`, otherwise by the custom includes and the extensions. */
  predicate IsIncluded(filePath: string, includeAll: bool, extensions: seq<string>) {
    includeAll || IncludedBy(CustomIncludes, extensions, filePath)
  }

  /** With `includeAll` nothing is excluded and everything is included. */
  lemma IncludeAllShortCircuits(filePath: string, extensions: seq<string>)
    ensures !IsExcluded(filePath, true)
    ensures IsIncluded(filePath, true, extensions)
  {
  }

  lemma SlashedUnchanged(s: string)
    requires '\\' !in s
    ensures Slashed(s) == s
  {
    ReplaceCharAbsent(s, '\\', '/');
  }

  /** An entry ending in `/` (and free of backslashes) excludes exactly the paths that,
      once their backslashes are slashes, start with it. */
  lemma DirectoryEntryIsPrefix(exclusion: string, filePath: string)
    requires '\\' !in exclusion && EndsWith(exclusion, "/")
    ensures MatchesExclusion(exclusion, filePath) <==> StartsWith(Slashed(filePath), exclusion)
  {
    SlashedUnchanged(exclusion);
  }

  /** Any other entry (free of backslashes) excludes exactly the paths that, once their
      backslashes are slashes, end with it, character for character. */
  lemma OtherEntryIsSuffix(exclusion: string, filePath: string)
    requires '\\' !in exclusion && !EndsWith(exclusion, "/")
    ensures MatchesExclusion(exclusion, filePath) <==> EndsWith(Slashed(filePath), exclusion)
  {
    SlashedUnchanged(exclusion);
  }

  /** Exclusion does not tell a backslash from a slash, in the path or in the entry. */
  lemma ExclusionIgnoresBackslashes(exclusion: string, filePath: string)
    ensures MatchesExclusion(exclusion, filePath) <==> MatchesExclusion(Slashed(exclusion), Slashed(filePath))
  {
    ReplaceCharIdempotent(exclusion, '\\', '/');
    ReplaceCharIdempotent(filePath, '\\', '/');
  }

  /** Adding entries to the exclusion list never turns an exclusion off. */
  lemma ExcludedByMonotone(exclusions: seq<string>, more: seq<string>, filePath: string)
    requires forall e :: e in exclusions ==> e in more
    requires ExcludedBy(exclusions, filePath)
    ensures ExcludedBy(more, filePath)
  {
    var i :| 0 <= i < |exclusions| && MatchesExclusion(exclusions[i], filePath);
    assert exclusions[i] in more;
    var j :| 0 <= j < |more| && more[j] == exclusions[i];
  }

  /** Adding include entries or extensions never turns an inclusion off. */
  lemma IncludedByMonotone(includes: seq<string>, extensions: seq<string>,
                           moreIncludes: seq<string>, moreExtensions: seq<string>, filePath: string)
    requires forall s :: s in includes ==> s in moreIncludes
    requires forall s :: s in extensions ==> s in moreExtensions
    requires IncludedBy(includes, extensions, filePath)
    ensures IncludedBy(moreIncludes, moreExtensions, filePath)
  {
    if i :| 0 <= i < |includes| && Contains(filePath, includes[i]) {
      assert includes[i] in moreIncludes;
      var j :| 0 <= j < |moreIncludes| && moreIncludes[j] == includes[i];
    } else {
      var i :| 0 <= i < |extensions| && EndsWith(filePath, extensions[i]);
      assert extensions[i] in moreExtensions;
      var j :| 0 <= j < |moreExtensions| && moreExtensions[j] == extensions[i];
    }
  }

  lemma StandardExclusionsSlashed()
    ensures forall i :: 0 <= i < |StandardExclusions| ==> Slashed(StandardExclusions[i]) == StandardExclusions[i]
  {
    forall i | 0 <= i < |StandardExclusions|
      ensures Slashed(StandardExclusions[i]) == StandardExclusions[i]
    {
      SlashedUnchanged(StandardExclusions[i]);
    }
  }

  /** On a path without backslashes, each standard entry is the prefix or suffix test its
      trailing slash calls for. */
  lemma StandardEntries(p: string)
    requires '\\' !in p
    ensures MatchesExclusion(StandardExclusions[0], p) <==> StartsWith(p, "node_modules/")
    ensures MatchesExclusion(StandardExclusions[1], p) <==> StartsWith(p, ".git/")
    ensures MatchesExclusion(StandardExclusions[2], p) <==> EndsWith(p, ".DS_Store")
    ensures MatchesExclusion(StandardExclusions[3], p) <==> StartsWith(p, "dist/")
    ensures MatchesExclusion(StandardExclusions[4], p) <==> StartsWith(p, "build/")
    ensures MatchesExclusion(StandardExclusions[5], p) <==> EndsWith(p, "*.log")
  {
    StandardExclusionsSlashed();
    SlashedUnchanged(p);
    assert EndsWith("node_modules/", "/") && EndsWith(".git/", "/");
    assert EndsWith("dist/", "/") && EndsWith("build/", "/");
    DiffersFromEnd(".DS_Store", "/", 0);
    DiffersFromEnd("*.log", "/", 0);
  }

  /** A path without a backslash that no standard entry matches, checked entry by entry. */
  lemma NotExcluded(p: string)
    requires '\\' !in p
    requires !StartsWith(p, "node_modules/") && !StartsWith(p, ".git/") && !EndsWith(p, ".DS_Store")
    requires !StartsWith(p, "dist/") && !StartsWith(p, "build/") && !EndsWith(p, "*.log")
    ensures !IsExcluded(p, false)
  {
    StandardEntries(p);
    forall i | 0 <= i < |StandardExclusions| ensures !MatchesExclusion(StandardExclusions[i], p) {
    }
  }

  /** `isExcluded` in full: without `includeAll`, a path is excluded exactly when, once its
      backslashes are slashes, it starts with one of the four directory entries or ends with
      one of the two other entries. */
  lemma ExcludedExactly(filePath: string, includeAll: bool)
    ensures IsExcluded(filePath, includeAll) <==>
      var q := Slashed(filePath);
      && !includeAll
      && (|| StartsWith(q, "node_modules/") || StartsWith(q, ".git/") || EndsWith(q, ".DS_Store")
          || StartsWith(q, "dist/") || StartsWith(q, "build/") || EndsWith(q, "*.log"))
  {
    var q := Slashed(filePath);
    ReplaceCharIdempotent(filePath, '\\', '/');
    assert Slashed(q) == q;
    StandardEntries(q);
    forall i | 0 <= i < |StandardExclusions|
      ensures MatchesExclusion(StandardExclusions[i], filePath) == MatchesExclusion(StandardExclusions[i], q)
    {
    }
    if StartsWith(q, "node_modules/") {
      assert MatchesExclusion(StandardExclusions[0], filePath);
    } else if StartsWith(q, ".git/") {
      assert MatchesExclusion(StandardExclusions[1], filePath);
    } else if EndsWith(q, ".DS_Store") {
      assert MatchesExclusion(StandardExclusions[2], filePath);
    } else if StartsWith(q, "dist/") {
      assert MatchesExclusion(StandardExclusions[3], filePath);
    } else if StartsWith(q, "build/") {
      assert MatchesExclusion(StandardExclusions[4], filePath);
    } else if EndsWith(q, "*.log") {
      assert MatchesExclusion(StandardExclusions[5], filePath);
    } else {
      assert !ExcludedBy(StandardExclusions, filePath);
    }
  }

  /** `isIncluded` in full: without `includeAll`, a path is included exactly when it contains
      `package.json` or `README.md`, or ends with one of the extensions. The include
      `../../README.md` never decides anything, since every path containing it contains
      `README.md`. */
  lemma IncludedExactly(filePath: string, includeAll: bool, extensions: seq<string>)
    ensures IsIncluded(filePath, includeAll, extensions) <==>
      || includeAll
      || Contains(filePath, "package.json") || Contains(filePath, "README.md")
      || (exists i :: 0 <= i < |extensions| && EndsWith(filePath, extensions[i]))
  {
    assert OccursAt("../../README.md", "README.md", 6);
    if Contains(filePath, CustomIncludes[1]) {
      ContainsTransitive(filePath, "../../README.md", "README.md");
    }
    if Contains(filePath, "README.md") {
      assert Contains(filePath, CustomIncludes[2]);
    }
    if Contains(filePath, "package.json") {
      assert Contains(filePath, CustomIncludes[0]);
    }
  }

  /** A directory entry matches at the start of a path, and only there. */
  lemma DirectoryEntryExample()
    ensures IsExcluded("node_modules/a.ts", false)
  {
    StandardEntries("node_modules/a.ts");
    assert StartsWith("node_modules/a.ts", "node_modules/");
    assert MatchesExclusion(StandardExclusions[0], "node_modules/a.ts");
  }

  /** A directory entry does not match the same directory further down the tree. */
  lemma NestedDirectoryExample()
    ensures !IsExcluded("src/node_modules/a.ts", false)
  {
    var p := "src/node_modules/a.ts";
    DiffersAt(p, "node_modules/", 0);
    DiffersAt(p, ".git/", 0);
    DiffersFromEnd(p, ".DS_Store", 0);
    DiffersAt(p, "dist/", 0);
    DiffersAt(p, "build/", 0);
    DiffersFromEnd(p, "*.log", 0);
    NotExcluded(p);
  }

  /** A file entry matches every path ending in it. */
  lemma FileEntryExample()
    ensures IsExcluded("a/.DS_Store", false)
  {
    StandardEntries("a/.DS_Store");
    assert EndsWith("a/.DS_Store", ".DS_Store");
    assert MatchesExclusion(StandardExclusions[2], "a/.DS_Store");
  }

  /** A path ending in the literal text `*.log` is excluded. */
  lemma LogEntryExample()
    ensures IsExcluded("x*.log", false)
  {
    StandardEntries("x*.log");
    assert EndsWith("x*.log", "*.log");
    assert MatchesExclusion(StandardExclusions[5], "x*.log");
  }

  /** `*.log` is literal text, not a glob. */
  lemma NoGlobExample()
    ensures !IsExcluded("app.log", false)
  {
    var p := "app.log";
    DiffersAt(p, "node_modules/", 0);
    DiffersAt(p, ".git/", 0);
    DiffersFromEnd(p, ".DS_Store", 0);
    DiffersAt(p, "dist/", 0);
    DiffersAt(p, "build/", 0);
    DiffersFromEnd(p, "*.log", 4);
    NotExcluded(p);
  }

  /** A backslash in the path counts as a slash for exclusion. */
  lemma BackslashExample()
    ensures IsExcluded("node_modules\\a", false)
  {
    StandardExclusionsSlashed();
    var p := "node_modules\\a";
    assert Slashed(p) == "node_modules/a";
    assert MatchesExclusion(StandardExclusions[0], p);
  }

  /** The custom includes match anywhere in the path. */
  lemma SubstringExamples()
    ensures IsIncluded("docs/README.md", false, DefaultExtensions)
    ensures IsIncluded("src/package.json.bak", false, DefaultExtensions)
  {
    assert OccursAt("docs/README.md", CustomIncludes[2], 5);
    assert OccursAt("src/package.json.bak", CustomIncludes[0], 4);
  }

  /** The default extensions are suffix tests on the raw path. */
  lemma ExtensionExample()
    ensures IsIncluded("src/app.tsx", false, DefaultExtensions)
  {
    assert EndsWith("src/app.tsx", DefaultExtensions[1]);
  }

  /** A path with another extension and no listed substring is not included. */
  lemma OtherExtensionExample()
    ensures !IsIncluded("src/app.js", false, DefaultExtensions)
  {
    var p := "src/app.js";
    assert !Contains(p, CustomIncludes[0]) && !Contains(p, CustomIncludes[1]) by {
      assert |CustomIncludes[0]| > |p| && |CustomIncludes[1]| > |p|;
    }
    FirstCharAbsent(p, CustomIncludes[2]);
    DiffersFromEnd(p, DefaultExtensions[0], 1);
    DiffersFromEnd(p, DefaultExtensions[1], 0);
  }

  /** Inclusion works on the raw path, so a backslash does not stand for a slash there,
      although it does in exclusion. */
  lemma BackslashInclusionExample()
    ensures !IncludedBy(["a/b"], [], "a\\b") && MatchesExclusion("a/b", "a\\b")
  {
    assert !OccursAt("a\\b", "a/b", 0) by { assert "a\\b"[1] != "a/b"[1]; }
    assert Slashed("a\\b") == "a/b";
    SlashedUnchanged("a/b");
  }
}
