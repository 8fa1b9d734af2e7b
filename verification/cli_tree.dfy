/** The nested object that `generateFileTree` in cli.ts builds from the admitted paths.
    A directory is an insertion-ordered list of keys, as `Object.keys` enumerates a plain
    object whose keys are not integer-like; a file is the value `true`. */
module CliTree {
  import opened Text
  import opened CliSelect

  datatype Option<T> = None | Some(value: T)

  /** A file (`true`) or a directory (a nested object) with its keys in insertion order. */
  datatype Node = Leaf | Dir(entries: seq<(string, Node)>)

  function Keys(es: seq<(string, Node)>): (ks: seq<string>)
    ensures |ks| == |es|
    ensures forall i :: 0 <= i < |es| ==> ks[i] == es[i].0
  {
    seq(|es|, i requires 0 <= i < |es| => es[i].0)
  }

  /** The first position of `k` in `ks`. */
  function IndexOf(ks: seq<string>, k: string): (r: Option<nat>)
    ensures r.None? <==> k !in ks
    ensures r.Some? ==> r.value < |ks| && ks[r.value] == k && k !in ks[..r.value]
  {
    if ks == [] then None
    else if ks[0] == k then Some(0)
    else
      match IndexOf(ks[1..], k)
      case None => None
      case Some(j) =>
        assert ks[..j + 1] == [ks[0]] + ks[1..][..j];
        Some(j + 1)
  }

  lemma {:induction false} IndexOfUnique(ks: seq<string>, k: string, i: nat)
    requires i < |ks| && ks[i] == k && k !in ks[..i]
    ensures IndexOf(ks, k) == Some(i)
    decreases i
  {
    if ks[0] != k {
      assert ks[..i] == [ks[0]] + ks[1..][..i - 1];
      IndexOfUnique(ks[1..], k, i - 1);
    }
  }

  /** `obj[k]`: the value under key `k`, if there is one. */
  function Get(es: seq<(string, Node)>, k: string): (r: Option<Node>)
    ensures r.None? <==> k !in Keys(es)
    ensures r.Some? ==> (k, r.value) in es
  {
    match IndexOf(Keys(es), k)
    case None => None
    case Some(i) => Some(es[i].1)
  }

  /** `obj[k] = v`: a key already present keeps its place, a new key goes last. */
  function SetKey(es: seq<(string, Node)>, k: string, v: Node): (r: seq<(string, Node)>)
    ensures Keys(r) == Keys(es) + (if k in Keys(es) then [] else [k])
    ensures Get(r, k) == Some(v)
    ensures forall k' :: k' != k ==> Get(r, k') == Get(es, k')
    ensures forall j :: 0 <= j < |r| ==> r[j] == (k, v) || r[j] in es
  {
    match IndexOf(Keys(es), k)
    case Some(i) =>
      var r := es[i := (k, v)];
      assert Keys(r) == Keys(es);
      IndexOfUnique(Keys(r), k, i);
      r
    case None =>
      var r := es + [(k, v)];
      assert Keys(r) == Keys(es) + [k];
      assert Keys(r)[..|es|] == Keys(es);
      IndexOfUnique(Keys(r), k, |es|);
      AppendKeepsOthers(es, k, v);
      r
  }

  lemma AppendKeepsOthers(es: seq<(string, Node)>, k: string, v: Node)
    requires k !in Keys(es)
    ensures forall k' :: k' != k ==> Get(es + [(k, v)], k') == Get(es, k')
  {
    var r := es + [(k, v)];
    assert Keys(r) == Keys(es) + [k];
    forall k' | k' != k ensures Get(r, k') == Get(es, k') {
      match IndexOf(Keys(es), k')
      case None =>
      case Some(j) =>
        assert Keys(r)[..j] == Keys(es)[..j];
        IndexOfUnique(Keys(r), k', j);
    }
  }

  /** Assigning a key the value it already holds changes nothing. */
  lemma SetKeySame(es: seq<(string, Node)>, k: string, v: Node)
    requires Get(es, k) == Some(v)
    ensures SetKey(es, k, v) == es
  {
    var i := IndexOf(Keys(es), k).value;
    assert es[i] == (k, v);
  }

  /** The node reached by following `path` down from `t`, if any. */
  function At(t: Node, path: seq<string>): Option<Node>
    decreases |path|
  {
    if path == [] then Some(t)
    else if t.Leaf? then None
    else
      match Get(t.entries, path[0])
      case None => None
      case Some(c) => At(c, path[1..])
  }

  /** A file sits at `path`. */
  predicate HasLeaf(t: Node, path: seq<string>) {
    At(t, path) == Some(Leaf)
  }

  /** A directory sits at `path`. */
  predicate HasDir(t: Node, path: seq<string>) {
    At(t, path).Some? && At(t, path).value.Dir?
  }

  /** The keys of the directory at `path`, in enumeration order. */
  function KeysAt(t: Node, path: seq<string>): seq<string>
    requires HasDir(t, path)
  {
    Keys(At(t, path).value.entries)
  }

  lemma AtChild(t: Node, k: string, c: Node, q: seq<string>)
    requires t.Dir? && Get(t.entries, k) == Some(c)
    ensures At(t, [k] + q) == At(c, q)
  {
    assert ([k] + q)[1..] == q;
  }

  predicate DistinctKeys(es: seq<(string, Node)>) {
    forall i, j :: 0 <= i < j < |es| ==> Keys(es)[i] != Keys(es)[j]
  }

  /** The shape every tree built by `generateFileTree` has: the keys of each directory are
      distinct (they are the keys of an object) and every directory below the root holds
      something (it was created on the way to a file). */
  predicate Valid(t: Node) {
    t.Leaf? ||
    (DistinctKeys(t.entries) &&
     forall i :: 0 <= i < |t.entries| ==> Valid(t.entries[i].1) && t.entries[i].1 != Dir([]))
  }

  predicate ProperPrefix(a: seq<string>, b: seq<string>) {
    |a| < |b| && b[..|a|] == a
  }

  lemma ProperPrefixCons(k: string, a: seq<string>, b: seq<string>)
    ensures ProperPrefix([k] + a, [k] + b) <==> ProperPrefix(a, b)
  {
    if |a| < |b| {
      assert ([k] + b)[..1 + |a|] == [k] + b[..|a|];
      assert ([k] + b[..|a|])[1..] == b[..|a|];
      assert ([k] + a)[1..] == a;
    }
  }

  /** An empty directory holds no file. */
  lemma EmptyHasNoLeaf(q: seq<string>)
    ensures !HasLeaf(Dir([]), q)
  {
  }

  /** The paths `Insert` handles as the source intends: no file sits where the path needs a
      directory, and no directory sits where the path ends. */
  predicate Fits(t: Node, parts: seq<string>)
    decreases |parts|
  {
    && t.Dir?
    && |parts| >= 1
    && match Get(t.entries, parts[0])
       case None => true
       case Some(c) => if |parts| == 1 then c.Leaf? else Fits(c, parts[1..])
  }

  /** One iteration of the outer `forEach` of `generateFileTree`: walk the segments, reusing
      each directory already present and creating the missing ones, then set the last
      segment to `true`. */
  function Insert(t: Node, parts: seq<string>): (r: Node)
    requires Fits(t, parts)
    ensures r.Dir? && |r.entries| > 0
    decreases |parts|, 1
  {
    Dir(SetKey(t.entries, parts[0], NewChild(t, parts)))
  }

  /** `currentLevel[part] || {}`: the directory under `k`, or a fresh empty one. */
  function Child(t: Node, k: string): Node
    requires t.Dir?
  {
    match Get(t.entries, k) case Some(c) => c case None => Dir([])
  }

  /** The value `Insert` stores under the first segment: `true` for the last segment,
      otherwise the directory below with the rest of the path inserted. */
  function NewChild(t: Node, parts: seq<string>): (v: Node)
    requires Fits(t, parts)
    ensures (v == Leaf) == (|parts| == 1)
    ensures v == Leaf || (v.Dir? && |v.entries| > 0)
    decreases |parts|, 0
  {
    if |parts| == 1 then Leaf else Insert(Child(t, parts[0]), parts[1..])
  }

  /** After inserting `p` the tree holds a file at `p`, and at every other path exactly the
      files it held before. */
  lemma {:induction false} InsertLeaves(t: Node, p: seq<string>, q: seq<string>)
    requires Fits(t, p)
    ensures HasLeaf(Insert(t, p), q) <==> HasLeaf(t, q) || q == p
    decreases |p|, 1
  {
    if q != [] {
      if q[0] == p[0] {
        InsertLeavesBelow(t, p, q);
      } else {
        InsertLeavesBeside(t, p, q);
      }
    }
  }

  /** `InsertLeaves` for a path through the first segment of the inserted one. */
  lemma {:induction false} InsertLeavesBelow(t: Node, p: seq<string>, q: seq<string>)
    requires Fits(t, p) && q != [] && q[0] == p[0]
    ensures HasLeaf(Insert(t, p), q) <==> HasLeaf(t, q) || q == p
    decreases |p|, 0
  {
    var k := p[0];
    var v := NewChild(t, p);
    var c := Child(t, k);
    assert q == [k] + q[1..];
    assert p == [k] + p[1..];
    AtChild(Insert(t, p), k, v, q[1..]);
    if Get(t.entries, k).None? {
      EmptyHasNoLeaf(q[1..]);
    } else {
      AtChild(t, k, c, q[1..]);
    }
    if |p| > 1 {
      InsertLeaves(c, p[1..], q[1..]);
    }
  }

  /** `InsertLeaves` for a path beside the inserted one: nothing changes there. */
  lemma InsertLeavesBeside(t: Node, p: seq<string>, q: seq<string>)
    requires Fits(t, p) && q != [] && q[0] != p[0]
    ensures HasLeaf(Insert(t, p), q) <==> HasLeaf(t, q)
  {
    var c := Child(t, q[0]);
    assert q == [q[0]] + q[1..];
    if Get(t.entries, q[0]).Some? {
      AtChild(t, q[0], c, q[1..]);
      AtChild(Insert(t, p), q[0], c, q[1..]);
    }
  }

  /** Every directory on the way to a file is a directory of the tree. */
  lemma {:induction false} LeafPathDirs(t: Node, p: seq<string>, j: nat)
    requires HasLeaf(t, p) && j < |p|
    ensures HasDir(t, p[..j])
    decreases j
  {
    if j > 0 {
      var c := Get(t.entries, p[0]).value;
      LeafPathDirs(c, p[1..], j - 1);
      assert p[..j] == [p[0]] + p[1..][..j - 1];
      AtChild(t, p[0], c, p[1..][..j - 1]);
    }
  }

  /** Inserting a path whose file is already present leaves the tree unchanged. */
  lemma {:induction false} InsertExisting(t: Node, p: seq<string>)
    requires HasLeaf(t, p) && |p| >= 1
    ensures Fits(t, p) && Insert(t, p) == t
    decreases |p|
  {
    var c := Get(t.entries, p[0]).value;
    assert p == [p[0]] + p[1..];
    AtChild(t, p[0], c, p[1..]);
    if |p| > 1 {
      InsertExisting(c, p[1..]);
    }
    SetKeySame(t.entries, p[0], c);
  }

  /** Inserting keeps every directory and its keys in their order; the only key it can add
      to a directory on the way is the next segment of the path, and it adds it last. */
  lemma {:induction false} InsertKeysAt(t: Node, p: seq<string>, d: seq<string>)
    requires Fits(t, p) && HasDir(t, d)
    ensures HasDir(Insert(t, p), d)
    ensures KeysAt(Insert(t, p), d)
         == KeysAt(t, d) + (if ProperPrefix(d, p) && p[|d|] !in KeysAt(t, d) then [p[|d|]] else [])
    decreases |d|, 1
  {
    if d == [] {
      var k := p[0];
      assert KeysAt(t, d) == Keys(t.entries);
      assert ProperPrefix(d, p) && p[|d|] == k;
    } else if d[0] == p[0] {
      InsertKeysAtBelow(t, p, d);
    } else {
      InsertKeysAtBeside(t, p, d);
    }
  }

  /** `InsertKeysAt` for a directory below the first segment of the path. */
  lemma {:induction false} InsertKeysAtBelow(t: Node, p: seq<string>, d: seq<string>)
    requires Fits(t, p) && HasDir(t, d) && d != [] && d[0] == p[0]
    ensures HasDir(Insert(t, p), d)
    ensures KeysAt(Insert(t, p), d)
         == KeysAt(t, d) + (if ProperPrefix(d, p) && p[|d|] !in KeysAt(t, d) then [p[|d|]] else [])
    decreases |d|, 0
  {
    var k := p[0];
    var c := Child(t, k);
    var v := NewChild(t, p);
    var r := Insert(t, p);
    AtChild(t, k, c, d[1..]);
    assert d == [k] + d[1..];
    assert p == [k] + p[1..];
    AtChild(r, k, v, d[1..]);
    InsertKeysAt(c, p[1..], d[1..]);
    ProperPrefixCons(k, d[1..], p[1..]);
    assert ProperPrefix(d, p) ==> p[|d|] == p[1..][|d[1..]|];
  }

  /** `InsertKeysAt` for a directory beside the path: nothing changes there. */
  lemma InsertKeysAtBeside(t: Node, p: seq<string>, d: seq<string>)
    requires Fits(t, p) && HasDir(t, d) && d != [] && d[0] != p[0]
    ensures HasDir(Insert(t, p), d)
    ensures KeysAt(Insert(t, p), d) == KeysAt(t, d)
    ensures !ProperPrefix(d, p)
  {
    var c := Child(t, d[0]);
    AtChild(t, d[0], c, d[1..]);
    assert d == [d[0]] + d[1..];
    AtChild(Insert(t, p), d[0], c, d[1..]);
    assert !ProperPrefix(d, p) by { assert d[0] != p[0]; }
  }

  lemma {:induction false} InsertValid(t: Node, p: seq<string>)
    requires Valid(t) && Fits(t, p)
    ensures Valid(Insert(t, p))
    decreases |p|
  {
    var k := p[0];
    var v := NewChild(t, p);
    assert Valid(v) by {
      if |p| > 1 {
        InsertValid(Child(t, k), p[1..]);
      }
    }
    SetKeyDistinct(t.entries, k, v);
    SetKeyChildren(t.entries, k, v);
  }

  /** Assigning a key keeps the keys of an object distinct. */
  lemma SetKeyDistinct(es: seq<(string, Node)>, k: string, v: Node)
    requires DistinctKeys(es)
    ensures DistinctKeys(SetKey(es, k, v))
  {
    var r := SetKey(es, k, v);
    var ks := Keys(es);
    assert Keys(r) == ks + (if k in ks then [] else [k]);
    forall i, j | 0 <= i < j < |r| ensures Keys(r)[i] != Keys(r)[j] {
      assert Keys(r)[i] == ks[i];
      if j < |es| {
        assert Keys(r)[j] == ks[j];
      } else {
        assert Keys(r)[j] == k && k !in ks;
      }
    }
  }

  /** Assigning a valid, non-empty value keeps every value of an object valid and non-empty. */
  lemma SetKeyChildren(es: seq<(string, Node)>, k: string, v: Node)
    requires forall i :: 0 <= i < |es| ==> Valid(es[i].1) && es[i].1 != Dir([])
    requires Valid(v) && v != Dir([])
    ensures forall i :: 0 <= i < |SetKey(es, k, v)| ==> Valid(SetKey(es, k, v)[i].1) && SetKey(es, k, v)[i].1 != Dir([])
  {
    var r := SetKey(es, k, v);
    forall i | 0 <= i < |r| ensures Valid(r[i].1) && r[i].1 != Dir([]) {
      if r[i] != (k, v) {
        var j :| 0 <= j < |es| && es[j] == r[i];
      }
    }
  }

  /** Every tree other than an empty directory holds a file somewhere. */
  lemma SomeLeaf(t: Node) returns (q: seq<string>)
    requires Valid(t) && t != Dir([])
    ensures HasLeaf(t, q)
    decreases t
  {
    if t.Leaf? {
      q := [];
    } else {
      var (k, c) := t.entries[0];
      IndexOfUnique(Keys(t.entries), k, 0);
      var q' := SomeLeaf(c);
      AtChild(t, k, c, q');
      q := [k] + q';
    }
  }

  /** In a valid tree, a path fits as soon as it is neither a proper prefix nor a proper
      extension of a file already present. */
  lemma {:induction false} FitsWithoutCollision(t: Node, p: seq<string>)
    requires Valid(t) && t.Dir? && |p| >= 1
    requires forall q :: HasLeaf(t, q) ==> !ProperPrefix(q, p) && !ProperPrefix(p, q)
    ensures Fits(t, p)
    decreases |p|
  {
    var k := p[0];
    match Get(t.entries, k)
    case None =>
    case Some(c) =>
      var i :| 0 <= i < |t.entries| && t.entries[i] == (k, c);
      assert Valid(c) && c != Dir([]);
      assert p == [k] + p[1..];
      if |p| == 1 {
        if c.Dir? {
          var q := SomeLeaf(c);
          AtChild(t, k, c, q);
          assert ProperPrefix(p, [k] + q);
        }
      } else {
        AtChild(t, k, c, []);
        assert [k] + [] == [k];
        assert ProperPrefix([k], p);
        forall q | HasLeaf(c, q) ensures !ProperPrefix(q, p[1..]) && !ProperPrefix(p[1..], q) {
          AtChild(t, k, c, q);
          assert HasLeaf(t, [k] + q);
          ProperPrefixCons(k, q, p[1..]);
          ProperPrefixCons(k, p[1..], q);
        }
        FitsWithoutCollision(c, p[1..]);
      }
  }

  /** The segment lists of the files the tree admits. */
  function AdmittedPaths(files: seq<string>): set<seq<string>> {
    set f | f in files && Admitted(f) :: Segments(f)
  }

  /** No admitted file is a directory on the way to another admitted file, the case the
      source does not handle (cli.ts:67-70 would overwrite the directory or index into `true`). */
  predicate NoCollisions(files: seq<string>) {
    forall p, q :: p in AdmittedPaths(files) && q in AdmittedPaths(files) ==> !ProperPrefix(p, q)
  }

  lemma AdmittedPathsSnoc(files: seq<string>, f: string)
    ensures AdmittedPaths(files + [f]) == AdmittedPaths(files) + (if Admitted(f) then {Segments(f)} else {})
  {
    var all := files + [f];
    forall x | x in all ensures x in files || x == f {
      var i :| 0 <= i < |all| && all[i] == x;
      if i < |files| { assert files[i] == x; }
    }
    forall x | x in files ensures x in all {
      var i :| 0 <= i < |files| && files[i] == x;
      assert all[i] == x;
    }
    assert f == all[|files|];
  }

  /** The tree that `generateFileTree` returns: the admitted files inserted one by one,
      in the order of the listing. It holds a file exactly at the admitted paths. */
  function BuildTree(files: seq<string>): (t: Node)
    requires NoCollisions(files)
    ensures t.Dir? && Valid(t)
    ensures forall q :: HasLeaf(t, q) <==> q in AdmittedPaths(files)
    decreases |files|
  {
    if files == [] then Dir([])
    else
      var init, f := files[..|files| - 1], files[|files| - 1];
      assert files == init + [f];
      AdmittedPathsSnoc(init, f);
      var t := BuildTree(init);
      if Admitted(f) then
        InsertAdmitted(t, init, f);
        Insert(t, Segments(f))
      else t
  }

  /** One step of `BuildTree`: the next admitted file fits the tree built so far, and
      inserting it keeps the tree valid and adds exactly its path to the files. */
  lemma InsertAdmitted(t: Node, init: seq<string>, f: string)
    requires t.Dir? && Valid(t)
    requires forall q :: HasLeaf(t, q) <==> q in AdmittedPaths(init)
    requires Admitted(f) && NoCollisions(init + [f])
    ensures Fits(t, Segments(f)) && Valid(Insert(t, Segments(f)))
    ensures forall q :: HasLeaf(Insert(t, Segments(f)), q) <==> q in AdmittedPaths(init + [f])
  {
    var p := Segments(f);
    AdmittedPathsSnoc(init, f);
    FitsWithoutCollision(t, p);
    InsertValid(t, p);
    forall q ensures HasLeaf(Insert(t, p), q) <==> q in AdmittedPaths(init + [f]) {
      InsertLeaves(t, p, q);
    }
  }

  /** `BuildTree` takes the files one at a time, the last one last. */
  lemma BuildTreeSnoc(init: seq<string>, f: string)
    requires NoCollisions(init + [f])
    ensures NoCollisions(init)
    ensures Admitted(f) ==> Fits(BuildTree(init), Segments(f))
    ensures BuildTree(init + [f])
         == if Admitted(f) then Insert(BuildTree(init), Segments(f)) else BuildTree(init)
  {
    var files := init + [f];
    assert files[..|files| - 1] == init;
    AdmittedPathsSnoc(init, f);
    if Admitted(f) {
      InsertAdmitted(BuildTree(init), init, f);
    }
  }

  lemma NoCollisionsPrefix(files: seq<string>, n: nat)
    requires n <= |files| && NoCollisions(files)
    ensures NoCollisions(files[..n])
  {
    assert files == files[..n] + files[n..];
    forall x | x in files[..n] ensures x in files {
      var i :| 0 <= i < n && files[..n][i] == x;
      assert files[i] == x;
    }
  }

  /** `generateFileTree`: the outer `forEach` over the listing, inserting each admitted file.
      The paths are normal, so `path.normalize` inside the predicates leaves them unchanged. */
  method GenerateFileTree(files: seq<string>) returns (fileTree: Node)
    requires forall i :: 0 <= i < |files| ==> IsNormal(files[i])
    requires NoCollisions(files)
    ensures fileTree == BuildTree(files)
  {
    fileTree := Dir([]);
    var i := 0;
    while i < |files|
      invariant 0 <= i <= |files|
      invariant NoCollisions(files[..i])
      invariant fileTree == BuildTree(files[..i])
    {
      var file := files[i];
      NoCollisionsPrefix(files, i + 1);
      assert files[..i + 1] == files[..i] + [file];
      BuildTreeSnoc(files[..i], file);
      if Admitted(file) {
        fileTree := Insert(fileTree, Segments(file));
      }
      i := i + 1;
    }
    assert files[..i] == files;
  }

  predicate IsPrefix(a: seq<string>, b: seq<string>) {
    |a| <= |b| && b[..|a|] == a
  }

  /** Keys keep the order of their first insertion: every directory of the tree built from
      the first `n` files is still there once all files are in, and its keys then start with
      the keys it had. */
  lemma {:induction false} BuildTreeKeysGrow(files: seq<string>, n: nat, d: seq<string>)
    requires n <= |files| && NoCollisions(files)
    requires NoCollisions(files[..n]) && HasDir(BuildTree(files[..n]), d)
    ensures HasDir(BuildTree(files), d)
    ensures IsPrefix(KeysAt(BuildTree(files[..n]), d), KeysAt(BuildTree(files), d))
    decreases |files| - n
  {
    if n == |files| {
      assert files[..n] == files;
    } else {
      var init, f := files[..|files| - 1], files[|files| - 1];
      assert files == init + [f];
      BuildTreeSnoc(init, f);
      assert init[..n] == files[..n];
      BuildTreeKeysGrow(init, n, d);
      if Admitted(f) {
        InsertKeysAt(BuildTree(init), Segments(f), d);
      }
    }
  }

  /** The segments of a path written as a join of slash-free names are those names. */
  lemma SegmentsOf(parts: seq<string>, p: string)
    requires |parts| >= 1 && (forall k :: 0 <= k < |parts| ==> '/' !in parts[k])
    requires p == Join(parts, '/')
    ensures Segments(p) == parts
  {
    SplitJoin(parts, '/');
  }

  lemma ExampleSegmentsA()
    ensures Segments("a/b.txt") == ["a", "b.txt"]
    ensures Segments("a/c.txt") == ["a", "c.txt"]
  {
    var b := ["a", "b.txt"];
    assert Join(b[1..], '/') == "b.txt";
    assert Join(b, '/') == "a" + "/" + "b.txt";
    SegmentsOf(b, "a/b.txt");
    var c := ["a", "c.txt"];
    assert Join(c[1..], '/') == "c.txt";
    assert Join(c, '/') == "a" + "/" + "c.txt";
    SegmentsOf(c, "a/c.txt");
  }

  lemma ExampleSegmentsD()
    ensures Segments("d.txt") == ["d.txt"]
  {
    SegmentsOf(["d.txt"], "d.txt");
  }

  lemma ExampleAdmitted()
    ensures Admitted("a/b.txt") && Admitted("a/c.txt") && Admitted("d.txt")
  {
    assert !StartsWith("a/b.txt", CustomExclusions[0]) by { assert "a/b.txt"[0] != 'l'; }
    assert !StartsWith("a/b.txt", CustomExclusions[1]) by { assert "a/b.txt"[0] != '*'; }
    assert !StartsWith("a/c.txt", CustomExclusions[0]) by { assert "a/c.txt"[0] != 'l'; }
    assert !StartsWith("a/c.txt", CustomExclusions[1]) by { assert "a/c.txt"[0] != '*'; }
    assert !StartsWith("d.txt", CustomExclusions[0]) by { assert "d.txt"[0] != 'l'; }
    assert !StartsWith("d.txt", CustomExclusions[1]) by { assert "d.txt"[0] != '*'; }
  }

  lemma ThreePaths(b: string, c: string, d: string)
    requires Admitted(b) && Admitted(c) && Admitted(d)
    ensures AdmittedPaths([b, c, d]) == {Segments(b), Segments(c), Segments(d)}
  {
    AdmittedPathsSnoc([], b);
    AdmittedPathsSnoc([b], c);
    AdmittedPathsSnoc([b, c], d);
    assert [] + [b] == [b];
    assert [b] + [c] == [b, c];
    assert [b, c] + [d] == [b, c, d];
    assert AdmittedPaths([]) == {};
  }

  lemma ExamplePaths()
    ensures AdmittedPaths(["a/b.txt", "a/c.txt", "d.txt"]) == {["a", "b.txt"], ["a", "c.txt"], ["d.txt"]}
  {
    ExampleAdmitted();
    ThreePaths("a/b.txt", "a/c.txt", "d.txt");
    ExampleSegmentsA();
    ExampleSegmentsD();
  }

  lemma NoCollisionsFrom(files: seq<string>, ps: set<seq<string>>)
    requires AdmittedPaths(files) == ps
    requires forall p, q :: p in ps && q in ps ==> !ProperPrefix(p, q)
    ensures NoCollisions(files)
  {
  }

  lemma ExamplePairs(ps: set<seq<string>>)
    requires ps == {["a", "b.txt"], ["a", "c.txt"], ["d.txt"]}
    ensures forall p, q :: p in ps && q in ps ==> !ProperPrefix(p, q)
  {
    forall p, q | p in ps && q in ps ensures !ProperPrefix(p, q) {
      if |p| < |q| {
        assert p == ["d.txt"];
        assert q[0] == "a";
        assert q[..1] != p;
      }
    }
  }

  lemma ExampleNoCollisions()
    ensures NoCollisions(["a/b.txt", "a/c.txt", "d.txt"])
  {
    ExamplePaths();
    var ps := AdmittedPaths(["a/b.txt", "a/c.txt", "d.txt"]);
    ExamplePairs(ps);
    NoCollisionsFrom(["a/b.txt", "a/c.txt", "d.txt"], ps);
  }

  lemma ExampleInsertB()
    ensures Fits(Dir([]), ["a", "b.txt"])
    ensures Insert(Dir([]), ["a", "b.txt"]) == Dir([("a", Dir([("b.txt", Leaf)]))])
  {
    assert Fits(Dir([]), ["a", "b.txt"]);
    var c := Insert(Dir([]), ["b.txt"]);
    assert ["a", "b.txt"][1..] == ["b.txt"];
    assert c == Dir([("b.txt", Leaf)]);
  }

  lemma ExampleInsertC()
    ensures Fits(Dir([("a", Dir([("b.txt", Leaf)]))]), ["a", "c.txt"])
    ensures Insert(Dir([("a", Dir([("b.txt", Leaf)]))]), ["a", "c.txt"])
         == Dir([("a", Dir([("b.txt", Leaf), ("c.txt", Leaf)]))])
  {
    var a1 := Dir([("b.txt", Leaf)]);
    var t := Dir([("a", a1)]);
    assert ["a", "c.txt"][1..] == ["c.txt"];
    assert Get(a1.entries, "c.txt") == None;
    assert Get(t.entries, "a") == Some(a1);
    assert Fits(t, ["a", "c.txt"]);
    assert Insert(a1, ["c.txt"]) == Dir([("b.txt", Leaf), ("c.txt", Leaf)]);
  }

  lemma ExampleInsertD()
    ensures Fits(Dir([("a", Dir([("b.txt", Leaf), ("c.txt", Leaf)]))]), ["d.txt"])
    ensures Insert(Dir([("a", Dir([("b.txt", Leaf), ("c.txt", Leaf)]))]), ["d.txt"])
         == Dir([("a", Dir([("b.txt", Leaf), ("c.txt", Leaf)])), ("d.txt", Leaf)])
  {
    var t := Dir([("a", Dir([("b.txt", Leaf), ("c.txt", Leaf)]))]);
    assert Get(t.entries, "d.txt") == None;
  }

  /** Three files, two in the same directory: the directory is created once, by the first,
      and its keys follow the listing. */
  lemma TreeExample()
    ensures NoCollisions(["a/b.txt", "a/c.txt", "d.txt"])
    ensures BuildTree(["a/b.txt", "a/c.txt", "d.txt"])
         == Dir([("a", Dir([("b.txt", Leaf), ("c.txt", Leaf)])), ("d.txt", Leaf)])
  {
    ExampleSegmentsA();
    ExampleSegmentsD();
    ExampleAdmitted();
    ExampleNoCollisions();
    var files := ["a/b.txt", "a/c.txt", "d.txt"];
    var f1 := files[..1];
    var f2 := files[..2];
    assert f2 == f1 + ["a/c.txt"];
    assert files == f2 + ["d.txt"];
    assert f1 == [] + ["a/b.txt"];
    NoCollisionsPrefix(files, 2);
    NoCollisionsPrefix(files, 1);
    BuildTreeSnoc([], "a/b.txt");
    BuildTreeSnoc(f1, "a/c.txt");
    BuildTreeSnoc(f2, "d.txt");
    ExampleInsertB();
    ExampleInsertC();
    ExampleInsertD();
  }
}
