/** `printFileTree` of cli.ts: the tree drawn depth first, one line per key, each appended
    to the output file as it is produced. */
module CliRender {
  import opened Text
  import opened CliTree
  import opened Output

  /** The glyph in front of a key: the last key of its directory gets the corner. */
  function Glyph(isLastItem: bool): string {
    if isLastItem then "└─ " else "├─ "
  }

  /** What the children of a key add to the indent. It is chosen by the `isLast` flag of the
      call that draws the key, not by whether the key itself is last. */
  function SubIndent(isLast: bool): string {
    if isLast then "   " else "│  "
  }

  function Line(indent: string, isLastItem: bool, key: string): string {
    indent + Glyph(isLastItem) + key + "\n"
  }

  /** The lines `printFileTree(t, indent, isLast)` appends, in order. */
  function Lines(t: Node, indent: string, isLast: bool): seq<string>
    decreases t, 2, 0
  {
    if t.Leaf? then [] else LinesUpTo(t, |t.entries|, indent, isLast)
  }

  /** The lines of the first `n` keys of a directory. */
  function LinesUpTo(t: Node, n: nat, indent: string, isLast: bool): seq<string>
    requires t.Dir? && n <= |t.entries|
    decreases t, 1, n
  {
    if n == 0 then [] else LinesUpTo(t, n - 1, indent, isLast) + ItemLines(t, n - 1, indent, isLast)
  }

  /** The line of key `i`, then the lines of its subtree. */
  function ItemLines(t: Node, i: nat, indent: string, isLast: bool): seq<string>
    requires t.Dir? && i < |t.entries|
    decreases t, 0, i
  {
    var isLastItem := i == |t.entries| - 1;
    [Line(indent, isLastItem, t.entries[i].0)] + Lines(t.entries[i].1, indent + SubIndent(isLast), isLastItem)
  }

  /** `printFileTree`: loops over the keys of one directory, appends a line per key and
      recurses into the directories. */
  method PrintFileTree(out: OutputFile, fileTree: Node, indent: string, isLast: bool)
    requires fileTree.Dir?
    modifies out
    ensures out.text == old(out.text) + Concat(Lines(fileTree, indent, isLast))
    decreases fileTree
  {
    ghost var start := out.text;
    var keys := Keys(fileTree.entries);
    var lastIndex := |keys| - 1;
    var index := 0;
    while index < |keys|
      invariant 0 <= index <= |keys| == |fileTree.entries|
      invariant out.text == start + Concat(LinesUpTo(fileTree, index, indent, isLast))
    {
      var key := keys[index];
      var value := fileTree.entries[index].1;
      var isLastItem := index == lastIndex;
      var treeItem := if isLastItem then "└─ " else "├─ ";
      var subIndent := if isLast then "   " else "│  ";
      var line := indent + treeItem + key + "\n";
      assert line == Line(indent, isLastItem, fileTree.entries[index].0) by {
        assert key == fileTree.entries[index].0 && treeItem == Glyph(isLastItem);
      }
      ghost var before := out.text;
      if value == Leaf {
        out.Append(line);
        assert Lines(value, indent + subIndent, isLastItem) == [];
      } else {
        out.Append(line);
        PrintFileTree(out, value, indent + subIndent, isLastItem);
      }
      assert subIndent == SubIndent(isLast);
      PrintStep(fileTree, index, indent, isLast, start, before, out.text);
      index := index + 1;
    }
  }

  /** One more key of a directory: its line, then its subtree. */
  lemma ItemStep(t: Node, i: nat, indent: string, isLast: bool)
    requires t.Dir? && i < |t.entries|
    ensures LinesUpTo(t, i + 1, indent, isLast)
         == LinesUpTo(t, i, indent, isLast)
            + ([indent + Glyph(i == |t.entries| - 1) + t.entries[i].0 + "\n"]
               + Lines(t.entries[i].1, indent + SubIndent(isLast), i == |t.entries| - 1))
  {
  }

  /** The text after one more key: what was there, the key's line, and its subtree. */
  lemma PrintStep(t: Node, i: nat, indent: string, isLast: bool, start: string, before: string, after: string)
    requires t.Dir? && i < |t.entries|
    requires before == start + Concat(LinesUpTo(t, i, indent, isLast))
    requires after == before + Line(indent, i == |t.entries| - 1, t.entries[i].0)
                     + Concat(Lines(t.entries[i].1, indent + SubIndent(isLast), i == |t.entries| - 1))
    ensures after == start + Concat(LinesUpTo(t, i + 1, indent, isLast))
  {
    var line := Line(indent, i == |t.entries| - 1, t.entries[i].0);
    var sub := Lines(t.entries[i].1, indent + SubIndent(isLast), i == |t.entries| - 1);
    ItemStep(t, i, indent, isLast);
    ConcatAppend([line], sub);
    assert Concat([line]) == line;
    ConcatAppend(LinesUpTo(t, i, indent, isLast), [line] + sub);
  }

  /** A key as a depth-first listing sees it: its name, and for each directory from the top
      level down to the key itself whether that entry is the last of its siblings. */
  datatype Row = Row(key: string, lastFlags: seq<bool>)

  /** All keys of a tree in depth-first pre-order, as rows. */
  function Rows(t: Node): (rows: seq<Row>)
    ensures forall k :: 0 <= k < |rows| ==> |rows[k].lastFlags| >= 1
    decreases t, 2, 0
  {
    if t.Leaf? then [] else RowsUpTo(t, |t.entries|)
  }

  function RowsUpTo(t: Node, n: nat): (rows: seq<Row>)
    requires t.Dir? && n <= |t.entries|
    ensures forall k :: 0 <= k < |rows| ==> |rows[k].lastFlags| >= 1
    decreases t, 1, n
  {
    if n == 0 then [] else RowsUpTo(t, n - 1) + ItemRows(t, n - 1)
  }

  function ItemRows(t: Node, i: nat): (rows: seq<Row>)
    requires t.Dir? && i < |t.entries|
    ensures forall k :: 0 <= k < |rows| ==> |rows[k].lastFlags| >= 1
    decreases t, 0, i
  {
    var isLastItem := i == |t.entries| - 1;
    [Row(t.entries[i].0, [isLastItem])] + Nest(isLastItem, Rows(t.entries[i].1))
  }

  /** The rows of a subtree seen from its parent directory. */
  function Nest(b: bool, rows: seq<Row>): (nested: seq<Row>)
    ensures |nested| == |rows|
    ensures forall k :: 0 <= k < |rows| ==> nested[k] == Row(rows[k].key, [b] + rows[k].lastFlags)
  {
    seq(|rows|, k requires 0 <= k < |rows| => Row(rows[k].key, [b] + rows[k].lastFlags))
  }

  /** The indent in front of a key at depth `|flags| - 1`: one three-character column per
      enclosing directory, the first chosen by `isLast` of the call and column `j > 0` by
      whether the ancestor at depth `j - 1` is the last of its siblings. */
  function Pad(isLast: bool, flags: seq<bool>): string
    decreases |flags|
  {
    if |flags| <= 1 then "" else SubIndent(isLast) + Pad(flags[0], flags[1..])
  }

  /** What follows the indent on a key's line. */
  function Label(isLastItem: bool, key: string): string {
    Glyph(isLastItem) + key + "\n"
  }

  function RowLine(indent: string, isLast: bool, r: Row): string
    requires |r.lastFlags| >= 1
  {
    indent + Pad(isLast, r.lastFlags) + Label(r.lastFlags[|r.lastFlags| - 1], r.key)
  }

  function LinesOf(indent: string, isLast: bool, rows: seq<Row>): (lines: seq<string>)
    requires forall k :: 0 <= k < |rows| ==> |rows[k].lastFlags| >= 1
    ensures |lines| == |rows|
  {
    seq(|rows|, k requires 0 <= k < |rows| => RowLine(indent, isLast, rows[k]))
  }

  lemma LinesOfAppend(indent: string, isLast: bool, a: seq<Row>, b: seq<Row>)
    requires forall k :: 0 <= k < |a| ==> |a[k].lastFlags| >= 1
    requires forall k :: 0 <= k < |b| ==> |b[k].lastFlags| >= 1
    ensures forall k :: 0 <= k < |a + b| ==> |(a + b)[k].lastFlags| >= 1
    ensures LinesOf(indent, isLast, a + b) == LinesOf(indent, isLast, a) + LinesOf(indent, isLast, b)
  {
  }

  lemma RowLineNest(indent: string, isLast: bool, b: bool, r: Row)
    requires |r.lastFlags| >= 1
    ensures RowLine(indent, isLast, Row(r.key, [b] + r.lastFlags)) == RowLine(indent + SubIndent(isLast), b, r)
  {
    var fl := r.lastFlags;
    assert ([b] + fl)[1..] == fl;
    assert ([b] + fl)[|[b] + fl| - 1] == fl[|fl| - 1];
    assert Pad(isLast, [b] + fl) == SubIndent(isLast) + Pad(b, fl);
    AppendAssoc(indent, SubIndent(isLast), Pad(b, fl));
  }

  /** Nesting rows under a directory adds that call's column to their indent. */
  lemma LinesOfNest(indent: string, isLast: bool, b: bool, rows: seq<Row>)
    requires forall k :: 0 <= k < |rows| ==> |rows[k].lastFlags| >= 1
    ensures LinesOf(indent, isLast, Nest(b, rows)) == LinesOf(indent + SubIndent(isLast), b, rows)
  {
    var n := Nest(b, rows);
    var l1 := LinesOf(indent, isLast, n);
    var l2 := LinesOf(indent + SubIndent(isLast), b, rows);
    forall k | 0 <= k < |rows|
      ensures l1[k] == l2[k]
    {
      RowLineNest(indent, isLast, b, rows[k]);
    }
  }

  /** The drawing is the pre-order listing of the keys, one line per key, each line made of
      the indent given by `Pad`, the glyph for whether the key is last, and the key. */
  lemma {:induction false} LinesAreRows(t: Node, indent: string, isLast: bool)
    ensures Lines(t, indent, isLast) == LinesOf(indent, isLast, Rows(t))
    decreases t, 2, 0
  {
    if t.Dir? {
      LinesUpToAreRows(t, |t.entries|, indent, isLast);
    }
  }

  lemma {:induction false} LinesUpToAreRows(t: Node, n: nat, indent: string, isLast: bool)
    requires t.Dir? && n <= |t.entries|
    ensures LinesUpTo(t, n, indent, isLast) == LinesOf(indent, isLast, RowsUpTo(t, n))
    decreases t, 1, n
  {
    if n > 0 {
      LinesUpToAreRows(t, n - 1, indent, isLast);
      ItemLinesAreRows(t, n - 1, indent, isLast);
      LinesOfAppend(indent, isLast, RowsUpTo(t, n - 1), ItemRows(t, n - 1));
    }
  }

  lemma {:induction false} ItemLinesAreRows(t: Node, i: nat, indent: string, isLast: bool)
    requires t.Dir? && i < |t.entries|
    ensures ItemLines(t, i, indent, isLast) == LinesOf(indent, isLast, ItemRows(t, i))
    decreases t, 0, i
  {
    var isLastItem := i == |t.entries| - 1;
    var (key, child) := t.entries[i];
    var inner := indent + SubIndent(isLast);
    var head := [Row(key, [isLastItem])];
    var nested := Nest(isLastItem, Rows(child));
    assert ItemRows(t, i) == head + nested;
    assert LinesOf(indent, isLast, head) == [Line(indent, isLastItem, key)] by {
      assert indent + Pad(isLast, [isLastItem]) == indent;
      AppendAssoc(indent, Glyph(isLastItem), key);
      AppendAssoc(indent, Glyph(isLastItem) + key, "\n");
    }
    assert Lines(child, inner, isLastItem) == LinesOf(indent, isLast, nested) by {
      LinesAreRows(child, inner, isLastItem);
      LinesOfNest(indent, isLast, isLastItem, Rows(child));
    }
    LinesOfAppend(indent, isLast, head, nested);
  }

  lemma {:induction false} PadLength(isLast: bool, flags: seq<bool>)
    requires |flags| >= 1
    ensures |Pad(isLast, flags)| == 3 * (|flags| - 1)
    decreases |flags|
  {
    if |flags| > 1 {
      PadLength(flags[0], flags[1..]);
    }
  }

  /** The first column of `Pad` is `SubIndent(isLast)`. */
  lemma PadFirstColumn(isLast: bool, flags: seq<bool>)
    requires |flags| >= 2
    ensures |Pad(isLast, flags)| >= 3
    ensures Pad(isLast, flags)[..3] == SubIndent(isLast)
  {
    PadLength(isLast, flags);
    var head := SubIndent(isLast);
    assert Pad(isLast, flags) == head + Pad(flags[0], flags[1..]);
  }

  /** `Pad` column by column: three characters per enclosing directory, and column `j > 0`
      is `SubIndent(flags[j - 1])`, the flag of the ancestor one level up, where a
      conventional drawing would use `flags[j]`. */
  lemma {:induction false} PadColumns(isLast: bool, flags: seq<bool>, j: nat)
    requires 1 <= j < |flags| - 1
    ensures |Pad(isLast, flags)| == 3 * (|flags| - 1)
    ensures Pad(isLast, flags)[3 * j..3 * j + 3] == SubIndent(flags[j - 1])
    decreases |flags|
  {
    PadLength(isLast, flags);
    var head := SubIndent(isLast);
    var rest := Pad(flags[0], flags[1..]);
    assert Pad(isLast, flags) == head + rest;
    var k := 3 * j;
    if j == 1 {
      PadFirstColumn(flags[0], flags[1..]);
    } else {
      PadColumns(flags[0], flags[1..], j - 1);
      assert flags[1..][j - 2] == flags[j - 1];
    }
    ColumnAfter(Pad(isLast, flags), head, rest, SubIndent(flags[j - 1]), k);
  }

  /** Past a first column of three, column `k` is column `k - 3` of what follows. */
  lemma ColumnAfter<T>(whole: seq<T>, head: seq<T>, rest: seq<T>, c: seq<T>, k: nat)
    requires whole == head + rest && |head| == 3
    requires 3 <= k && k + 3 <= |whole| && rest[k - 3..k] == c
    ensures whole[k..k + 3] == c
  {
    assert whole[k..k + 3] == rest[k - 3..k];
  }

  /** Drawing from the top (`indent` empty, `isLast` true, the defaults of `printFileTree`),
      every key below the top level starts with three spaces, whatever its siblings. */
  lemma TopColumnIsBlank(flags: seq<bool>)
    requires |flags| >= 2
    ensures Pad(true, flags)[..3] == "   "
  {
    PadFirstColumn(true, flags);
  }

  /** The tree of `a/b.txt`, `a/c.txt`, `d.txt`, drawn from the top: the keys under `a` are
      indented with blanks although `a` is not the last key, because the top call's `isLast`
      chooses their column. */
  lemma DrawingExample()
    ensures Lines(Dir([("a", Dir([("b.txt", Leaf), ("c.txt", Leaf)])), ("d.txt", Leaf)]), "", true)
         == ["├─ a\n", "   ├─ b.txt\n", "   └─ c.txt\n", "└─ d.txt\n"]
  {
    var a := Dir([("b.txt", Leaf), ("c.txt", Leaf)]);
    var t := Dir([("a", a), ("d.txt", Leaf)]);
    assert Lines(a, "   ", false) == ["   ├─ b.txt\n", "   └─ c.txt\n"] by {
      assert Line("   ", false, "b.txt") == "   ├─ b.txt\n";
      assert Line("   ", true, "c.txt") == "   └─ c.txt\n";
      assert ItemLines(a, 0, "   ", false) == ["   ├─ b.txt\n"];
      assert ItemLines(a, 1, "   ", false) == ["   └─ c.txt\n"];
      assert LinesUpTo(a, 1, "   ", false) == ["   ├─ b.txt\n"];
    }
    assert Line("", false, "a") == "├─ a\n";
    assert "" + SubIndent(true) == "   ";
    assert Line("", true, "d.txt") == "└─ d.txt\n";
    assert ItemLines(t, 0, "", true) == ["├─ a\n", "   ├─ b.txt\n", "   └─ c.txt\n"];
    assert ItemLines(t, 1, "", true) == ["└─ d.txt\n"];
    assert LinesUpTo(t, 1, "", true) == ItemLines(t, 0, "", true);
  }

  /** The listing `a/b.txt`, `a/c.txt`, `d.txt` from the version-control system to the drawing. */
  lemma ListingExample()
    ensures NoCollisions(["a/b.txt", "a/c.txt", "d.txt"])
    ensures Lines(BuildTree(["a/b.txt", "a/c.txt", "d.txt"]), "", true)
         == ["├─ a\n", "   ├─ b.txt\n", "   └─ c.txt\n", "└─ d.txt\n"]
  {
    TreeExample();
    DrawingExample();
  }
}
