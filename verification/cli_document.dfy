/** The document cli.ts writes: a heading, the drawing of the file tree, a blank line, then
    one block per selected file holding its path and its contents. The listing of the
    version-control system and the contents of the files are parameters: `listing` is what
    the listing command printed, and `read` maps a tracked path to the text stored at it. */
module CliDocument {
  import opened Text
  import opened CliSelect
  import opened CliTree
  import opened CliRender
  import opened Output

  const StartSeparator: string := "===== BEGIN "
  const EndSeparator: string := " ====="
  const TreeHeading: string := "File Tree:\n"

  /** The block appended for one selected file. */
  function Block(filePath: string, content: string): string {
    StartSeparator + filePath + EndSeparator + "\n" + content + "\n\n"
  }

  /** The blocks of a list of files, in the list's order. */
  function BlocksOf(files: seq<string>, read: string -> string): (blocks: seq<string>)
    ensures |blocks| == |files|
    ensures forall k :: 0 <= k < |files| ==> blocks[k] == Block(files[k], read(files[k]))
  {
    seq(|files|, k requires 0 <= k < |files| => Block(files[k], read(files[k])))
  }

  /** What the output file holds once the tool has run on a listing of `files`. */
  function Document(files: seq<string>, read: string -> string): string
    requires NoCollisions(files)
  {
    TreeHeading + Concat(Lines(BuildTree(files), "", true)) + "\n"
    + Concat(BlocksOf(Filter(Selected, files), read))
  }

  /** A block read line by line: a heading line naming the file, the lines of the contents
      unchanged, and two empty pieces from the trailing blank line. */
  lemma BlockLines(filePath: string, content: string)
    requires '\n' !in filePath
    ensures Split(Block(filePath, content), '\n')
         == [StartSeparator + filePath + EndSeparator] + Split(content, '\n') + ["", ""]
  {
    var h := StartSeparator + filePath + EndSeparator;
    assert '\n' !in StartSeparator && '\n' !in EndSeparator;
    assert '\n' !in h;
    var x := content + "\n\n";
    AppendAssoc(h + "\n", content, "\n\n");
    assert Block(filePath, content) == h + ['\n'] + x;
    SplitAround(h, x, '\n');
    SplitWithout(h, '\n');
    assert "\n\n" == "\n" + "\n";
    AppendAssoc(content, "\n", "\n");
    SplitAround(content, "\n", '\n');
    SplitAround("", "", '\n');
    assert "" + ['\n'] + "" == "\n";
    assert Split("", '\n') == [""];
    AppendAssoc([h], Split(content, '\n'), ["", ""]);
  }

  /** `processFile`: appends the block of a selected file and nothing otherwise. */
  method ProcessFile(out: OutputFile, filePath: string, read: string -> string)
    modifies out
    ensures out.text == old(out.text) + (if Selected(filePath) then Block(filePath, read(filePath)) else "")
  {
    if (!IsExcluded(filePath) || IsIncluded(filePath))
       && (EndsWith(filePath, ".ts") || EndsWith(filePath, ".tsx"))
    {
      var fileContent := read(filePath);
      var separator := StartSeparator + filePath + EndSeparator + "\n" + fileContent + "\n\n";
      out.Append(separator);
    }
  }

  /** The blocks of a list extended by one file: its block comes last, if it is kept. */
  lemma BlocksSnoc(keep: string -> bool, files: seq<string>, f: string, read: string -> string)
    ensures Concat(BlocksOf(Filter(keep, files + [f]), read))
         == Concat(BlocksOf(Filter(keep, files), read)) + (if keep(f) then Block(f, read(f)) else "")
  {
    var a := Filter(keep, files);
    var b := Filter(keep, [f]);
    FilterAppend(keep, files, [f]);
    assert BlocksOf(a + b, read) == BlocksOf(a, read) + BlocksOf(b, read);
    ConcatAppend(BlocksOf(a, read), BlocksOf(b, read));
    assert [f][1..] == [];
    if keep(f) {
      assert b == [f];
      assert Concat(BlocksOf(b, read)) == Block(f, read(f)) + Concat([]);
    } else {
      assert b == [];
    }
  }

  /** `trackedFiles.forEach(processFile)`: the blocks of the selected files, in listing order. */
  method ProcessFiles(out: OutputFile, files: seq<string>, read: string -> string)
    modifies out
    ensures out.text == old(out.text) + Concat(BlocksOf(Filter(Selected, files), read))
  {
    var i := 0;
    while i < |files|
      invariant 0 <= i <= |files|
      invariant out.text == old(out.text) + Concat(BlocksOf(Filter(Selected, files[..i]), read))
    {
      ghost var before := out.text;
      ProcessFile(out, files[i], read);
      ProcessStep(Selected, files, i, read, old(out.text), before, out.text);
      i := i + 1;
    }
    assert files[..i] == files;
  }

  lemma ProcessStep(keep: string -> bool, files: seq<string>, i: nat, read: string -> string,
                    start: string, before: string, after: string)
    requires i < |files|
    requires before == start + Concat(BlocksOf(Filter(keep, files[..i]), read))
    requires after == before + (if keep(files[i]) then Block(files[i], read(files[i])) else "")
    ensures after == start + Concat(BlocksOf(Filter(keep, files[..i + 1]), read))
  {
    var pre := files[..i];
    var f := files[i];
    assert files[..i + 1] == pre + [f];
    BlocksSnoc(keep, pre, f, read);
    var a := Concat(BlocksOf(Filter(keep, pre), read));
    var b := if keep(f) then Block(f, read(f)) else "";
    AppendAssoc(start, a, b);
  }

  /** The top level of cli.ts: list the tracked files, build the tree, write the heading,
      draw the tree, add a blank line, then process every tracked file in order. */
  method Run(out: OutputFile, listing: string, read: string -> string)
    requires forall i :: 0 <= i < |TrackedFiles(listing)| ==> IsNormal(TrackedFiles(listing)[i])
    requires NoCollisions(TrackedFiles(listing))
    modifies out
    ensures out.text == Document(TrackedFiles(listing), read)
  {
    var trackedFiles := TrackedFiles(listing);
    var fileTree := GenerateFileTree(trackedFiles);
    out.Write(TreeHeading);
    PrintFileTree(out, fileTree, "", true);
    out.Append("\n");
    ProcessFiles(out, trackedFiles, read);
  }

  /** A file gets a block exactly when it is tracked and selected, and every block belongs to
      such a file; a file with a block also has a leaf in the drawn tree. */
  lemma BlocksAreSelectedFiles(files: seq<string>, read: string -> string)
    requires NoCollisions(files)
    ensures forall f :: f in files && Selected(f) ==> Block(f, read(f)) in BlocksOf(Filter(Selected, files), read)
    ensures forall b :: b in BlocksOf(Filter(Selected, files), read) ==>
              exists f :: f in files && Selected(f) && b == Block(f, read(f))
    ensures forall f :: f in files && Selected(f) ==> HasLeaf(BuildTree(files), Segments(f))
  {
    var sel := Filter(Selected, files);
    var blocks := BlocksOf(sel, read);
    forall f | f in files && Selected(f)
      ensures Block(f, read(f)) in blocks
      ensures HasLeaf(BuildTree(files), Segments(f))
    {
      assert f in sel;
      var k :| 0 <= k < |sel| && sel[k] == f;
      assert blocks[k] == Block(f, read(f));
      assert Segments(f) in AdmittedPaths(files);
    }
    forall b | b in blocks
      ensures exists f :: f in files && Selected(f) && b == Block(f, read(f))
    {
      var k :| 0 <= k < |blocks| && blocks[k] == b;
      assert sel[k] in sel;
    }
  }
}
