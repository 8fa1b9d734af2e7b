/** The selection predicates of the positional-argument variant of the tool (cli.ts) and the
    parsing of the version-control listing. Both predicates are plain prefix tests; the
    constant lists are in normal form, so `path.normalize` leaves them unchanged, and the
    paths are required to be normal where they enter the model (see `IsNormal`). */
module CliSelect {
  import opened Text

  /** The path separator, `path.sep` on a POSIX system. */
  const Sep: char := '/'

  const CustomExclusions: seq<string> := ["locales/", "*.ts-snapshots"]

  const CustomIncludes: seq<string> := ["package.json", "../../README.md", "README.md"]

  /** The segments of a path, `file.split(path.sep)`. */
  function Segments(p: string): (parts: seq<string>)
    ensures |parts| >= 1
  {
    Split(p, Sep)
  }

  /** A path that `path.normalize` returns unchanged: not empty, no empty segment except
      after a trailing slash (so no `//` and no leading `/`), no `.` segment, and `..`
      segments only at the front. */
  predicate IsNormal(p: string) {
    var segs := Segments(p);
    && p != ""
    && (forall i :: 0 <= i < |segs| - 1 ==> segs[i] != "")
    && (forall i :: 0 <= i < |segs| ==> segs[i] != ".")
    && (forall i, j :: 0 <= j < i < |segs| && segs[i] == ".." ==> segs[j] == "..")
  }

  /** `isExcluded`: the path starts with some custom exclusion. */
  predicate IsExcluded(filePath: string) {
    exists i :: 0 <= i < |CustomExclusions| && StartsWith(filePath, CustomExclusions[i])
  }

  /** `isIncluded`: the path starts with some custom include. */
  predicate IsIncluded(filePath: string) {
    exists i :: 0 <= i < |CustomIncludes| && StartsWith(filePath, CustomIncludes[i])
  }

  /** The filter shared by the tree and the content blocks: inclusion overrides exclusion. */
  predicate Admitted(filePath: string) {
    !IsExcluded(filePath) || IsIncluded(filePath)
  }

  /** The files whose content is copied into the document. */
  predicate Selected(filePath: string) {
    Admitted(filePath) && (EndsWith(filePath, ".ts") || EndsWith(filePath, ".tsx"))
  }

  /** The characters `String.prototype.trim` removes: ECMAScript white space and line terminators. */
  predicate IsWhitespace(c: char) {
    || c == '\t' || c == '\n' || c == '\U{B}' || c == '\U{C}' || c == '\r' || c == ' '
    || c == '\U{A0}' || c == '\U{1680}' || ('\U{2000}' <= c <= '\U{200A}')
    || c == '\U{2028}' || c == '\U{2029}' || c == '\U{202F}' || c == '\U{205F}'
    || c == '\U{3000}' || c == '\U{FEFF}'
  }

  /** `s.trim() === ""` */
  predicate IsBlank(s: string) {
    forall i :: 0 <= i < |s| ==> IsWhitespace(s[i])
  }

  predicate NotBlank(s: string) {
    !IsBlank(s)
  }

  /** `getTrackedFiles` after the listing command has run: the lines of its output that are
      not blank, in order and untrimmed. */
  function TrackedFiles(output: string): (files: seq<string>)
    ensures forall f :: f in files <==> f in Split(output, '\n') && !IsBlank(f)
    ensures forall k :: 0 <= k < |files| ==> '\n' !in files[k] && files[k] != ""
  {
    var pieces := Split(output, '\n');
    var files := Filter(NotBlank, pieces);
    assert forall k :: 0 <= k < |files| ==> files[k] in pieces && NotBlank(files[k]);
    files
  }

  /** A listing made of lines keeps exactly its non-blank lines, in their order; the lines
      of two listings put one after the other are the lines of the first, then of the second. */
  lemma {:induction false} TrackedFilesOfLines(lines: seq<string>, more: seq<string>)
    requires |lines| >= 1 && |more| >= 1
    requires forall k :: 0 <= k < |lines| ==> '\n' !in lines[k]
    requires forall k :: 0 <= k < |more| ==> '\n' !in more[k]
    ensures TrackedFiles(Join(lines, '\n')) == Filter(NotBlank, lines)
    ensures TrackedFiles(Join(lines + more, '\n')) == TrackedFiles(Join(lines, '\n')) + TrackedFiles(Join(more, '\n'))
  {
    SplitJoin(lines, '\n');
    SplitJoin(more, '\n');
    var all := lines + more;
    assert forall k :: 0 <= k < |all| ==> '\n' !in all[k] by {
      forall k | 0 <= k < |all| ensures '\n' !in all[k] {
        if k < |lines| { assert all[k] == lines[k]; } else { assert all[k] == more[k - |lines|]; }
      }
    }
    SplitJoin(all, '\n');
    FilterAppend(NotBlank, lines, more);
  }

  /** Both predicates are prefix tests: whatever follows an excluded or included path, the
      longer path is excluded or included too. */
  lemma SelectionExtends(filePath: string, more: string)
    ensures IsExcluded(filePath) ==> IsExcluded(filePath + more)
    ensures IsIncluded(filePath) ==> IsIncluded(filePath + more)
  {
    if IsExcluded(filePath) {
      var i :| 0 <= i < |CustomExclusions| && StartsWith(filePath, CustomExclusions[i]);
      StartsWithExtends(filePath, CustomExclusions[i], more);
    }
    if IsIncluded(filePath) {
      var i :| 0 <= i < |CustomIncludes| && StartsWith(filePath, CustomIncludes[i]);
      StartsWithExtends(filePath, CustomIncludes[i], more);
    }
  }

  /** With the configured lists no path is both excluded and included: every exclusion
      starts with `l` or `*`, every include with `p`, `.` or `R`. So inclusion never
      overrides an exclusion, and a path is admitted exactly when it is not excluded. */
  lemma IncludesNeverOverride(filePath: string)
    ensures !(IsExcluded(filePath) && IsIncluded(filePath))
    ensures Admitted(filePath) <==> !IsExcluded(filePath)
  {
    if IsExcluded(filePath) {
      var i :| 0 <= i < |CustomExclusions| && StartsWith(filePath, CustomExclusions[i]);
      assert filePath[0] == CustomExclusions[i][0];
      assert filePath[0] == 'l' || filePath[0] == '*';
      DiffersAt(filePath, CustomIncludes[0], 0);
      DiffersAt(filePath, CustomIncludes[1], 0);
      DiffersAt(filePath, CustomIncludes[2], 0);
    }
  }

  /** A directory exclusion matches at the start of a path and nowhere else. */
  lemma ExclusionExamples()
    ensures IsExcluded("locales/x") && !IsExcluded("src/locales/x")
  {
    assert StartsWith("locales/x", CustomExclusions[0]);
    DiffersAt("src/locales/x", CustomExclusions[0], 0);
    DiffersAt("src/locales/x", CustomExclusions[1], 0);
  }

  /** An include matches at the start of a path and nowhere else. */
  lemma InclusionExamples()
    ensures IsIncluded("README.md") && !IsIncluded("docs/README.md")
  {
    assert StartsWith("README.md", CustomIncludes[2]);
    DiffersAt("docs/README.md", CustomIncludes[0], 0);
    DiffersAt("docs/README.md", CustomIncludes[1], 0);
    DiffersAt("docs/README.md", CustomIncludes[2], 0);
  }

  /** `*.ts-snapshots` is literal text: it matches only paths that begin with those characters. */
  lemma SnapshotExamples()
    ensures IsExcluded("*.ts-snapshots/a.png") && !IsExcluded("a.ts-snapshots/b.png")
  {
    assert StartsWith("*.ts-snapshots/a.png", CustomExclusions[1]);
    DiffersAt("a.ts-snapshots/b.png", CustomExclusions[0], 0);
    DiffersAt("a.ts-snapshots/b.png", CustomExclusions[1], 0);
  }

  /** The combined filter on three paths. */
  lemma AdmittedExamples()
    ensures Admitted("docs/README.md") && !Admitted("locales/en.json") && Admitted("package.json")
  {
    var d := "docs/README.md";
    DiffersAt(d, CustomExclusions[0], 0);
    DiffersAt(d, CustomExclusions[1], 0);
    var l := "locales/en.json";
    assert StartsWith(l, CustomExclusions[0]);
    DiffersAt(l, CustomIncludes[0], 0);
    DiffersAt(l, CustomIncludes[1], 0);
    DiffersAt(l, CustomIncludes[2], 0);
    assert StartsWith("package.json", CustomIncludes[0]);
  }
}
