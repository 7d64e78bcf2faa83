/**
 * The project-structure listing of the repository digest: up to twenty
 * directories and thirty files from the repository tree, each in the default
 * sort order, every file behind an icon chosen by its extension.
 */
module FileTree {
  import opened Wrappers
  import opened JsText
  import opened FileSelection

  // ---------------------------------------------------------------------------
  // Icons
  // ---------------------------------------------------------------------------

  /** The folder emoji that heads every directory line. */
  const FolderIcon: string := "\U{1F4C1}"
  /** The page emoji, also the icon of every extension the table does not name. */
  const PageIcon: string := "\U{1F4C4}"
  const AtomIcon: string := "\U{269B}\U{FE0F}"
  const GearIcon: string := "\U{2699}\U{FE0F}"
  const PaletteIcon: string := "\U{1F3A8}"

  /** The extension-to-icon table; keys are lower case. */
  const Icons: map<string, string> := map[
    "js" := PageIcon, "ts" := "\U{1F4D8}", "jsx" := AtomIcon, "tsx" := AtomIcon,
    "py" := "\U{1F40D}", "java" := "\U{2615}", "go" := "\U{1F439}", "rs" := "\U{1F980}",
    "php" := "\U{1F418}", "rb" := "\U{1F48E}", "css" := PaletteIcon, "scss" := PaletteIcon,
    "html" := "\U{1F310}", "json" := "\U{1F4CB}", "md" := "\U{1F4DD}", "txt" := PageIcon,
    "yml" := GearIcon, "yaml" := GearIcon, "xml" := PageIcon, "sql" := "\U{1F5C4}\U{FE0F}"
  ]

  /** The text after the last `.` of a file name (the whole name when it has none), lower-cased. */
  function Extension(filename: string): string {
    var parts := Split(filename, '.');
    ToLower(parts[|parts| - 1])
  }

  /** The icon of a file: the table's entry for its extension, the page otherwise. */
  function FileIcon(filename: string): string {
    var ext := Extension(filename);
    if ext in Icons then Icons[ext] else PageIcon
  }

  /** The extension of `prefix.ext` is `ext` in lower case when `ext` has no dot. */
  lemma ExtensionOfDotted(prefix: string, ext: string)
    requires '.' !in ext
    ensures Extension(prefix + "." + ext) == ToLower(ext)
  {
    var s := prefix + "." + ext;
    var parts := Split(s, '.');
    var last := parts[|parts| - 1];
    SplitLast(s, '.');
    var n := |s|;
    assert s[n - |ext|..] == ext;
    assert s[n - |ext| - 1] == '.';
    assert '.' !in last;
    if |last| > |ext| {
      assert false;
    }
    if |last| < |ext| {
      assert false;
    }
    assert last == s[n - |ext|..];
  }

  /** A name without a dot is its own extension, lower-cased. */
  lemma ExtensionOfUndotted(filename: string)
    requires '.' !in filename
    ensures Extension(filename) == ToLower(filename)
  {
    SplitJoin([filename], '.');
    assert Join([filename], ".") == filename;
  }

  /** Only the text after the last dot decides the icon. */
  lemma FileIconOfDotted(prefix: string, ext: string)
    requires '.' !in ext
    ensures FileIcon(prefix + "." + ext) == FileIcon(ext)
    ensures ToLower(ext) in Icons ==> FileIcon(prefix + "." + ext) == Icons[ToLower(ext)]
    ensures ToLower(ext) !in Icons ==> FileIcon(prefix + "." + ext) == PageIcon
  {
    ExtensionOfDotted(prefix, ext);
    ExtensionOfUndotted(ext);
  }

  /** No icon holds a line break, so a listing line stays one line. */
  lemma IconsSingleLine(filename: string)
    ensures '\n' !in FileIcon(filename)
  {
    assert forall k :: k in Icons ==> '\n' !in Icons[k];
  }

  // ---------------------------------------------------------------------------
  // The icon lookup as the program performs it
  // ---------------------------------------------------------------------------

  /**
   * The lookup reads an ordinary object literal, so the two lower-case names
   * every object inherits also find a value: the `Object` constructor and
   * `Object.prototype`, which the template literal then turns into text.
   */
  function InheritedMember(ext: string): Option<string> {
    if ext == "constructor" then Some("function Object() { [native code] }")
    else if ext == "__proto__" then Some("[object Object]")
    else None
  }

  /** The icon as the program computes it, inherited members included. */
  function FileIconAsWritten(filename: string): string {
    var ext := Extension(filename);
    if ext in Icons then Icons[ext]
    else match InheritedMember(ext)
      case Some(text) => text
      case None => PageIcon
  }

  /** The two lookups agree on every extension except the inherited member names. */
  lemma FileIconAsWrittenAgrees(filename: string)
    ensures FileIconAsWritten(filename) == FileIcon(filename)
        <==> InheritedMember(Extension(filename)).None?
  {
    var ext := Extension(filename);
    if InheritedMember(ext).Some? {
      IconKeysShort();
      assert ext !in Icons by {
        assert ext == "constructor" || ext == "__proto__";
      }
      assert FileIconAsWritten(filename)[0] in "f[";
      assert FileIcon(filename) == PageIcon;
    }
  }

  /** Every key of the table is at most four characters long. */
  lemma IconKeysShort()
    ensures forall k :: k in Icons ==> |k| <= 4
  {
  }

  /** An extension too long to be a key of the table gets no icon from it. */
  lemma LongExtensionNotInTable(ext: string)
    requires |ext| > 4
    ensures ext !in Icons
  {
    IconKeysShort();
  }

  /** A file called `notes.constructor` is listed behind the text of a function, not an icon. */
  lemma ConstructorExtension(prefix: string, ext: string)
    requires ext == "constructor"
    ensures FileIconAsWritten(prefix + "." + ext) == "function Object() { [native code] }"
    ensures FileIcon(prefix + "." + ext) == PageIcon
  {
    assert '.' !in ext;
    ExtensionOfDotted(prefix, ext);
    ToLowerOfLower(ext);
    LongExtensionNotInTable(ext);
  }

  // ---------------------------------------------------------------------------
  // Collecting the directories and files
  // ---------------------------------------------------------------------------

  /** A blob outside `node_modules` and `.git/`: the files the listing may show. */
  predicate Listed(e: TreeEntry) {
    e.kind == Blob && !Includes(e.path, "node_modules") && !Includes(e.path, ".git/")
  }

  /** The paths of the tree entries, in tree order. */
  function DirPaths(files: seq<TreeEntry>): (r: seq<string>)
    ensures forall d :: d in r <==> exists k :: 0 <= k < |files| && files[k].kind == Tree && files[k].path == d
    decreases |files|
  {
    if |files| == 0 then []
    else
      var init := files[..|files| - 1];
      var last := files[|files| - 1];
      assert forall k :: 0 <= k < |init| ==> init[k] == files[k];
      DirPaths(init) + (if last.kind == Tree then [last.path] else [])
  }

  /** The paths of the listed blobs, in tree order. */
  function ListedPaths(files: seq<TreeEntry>): (r: seq<string>)
    ensures forall f :: f in r <==> exists k :: 0 <= k < |files| && Listed(files[k]) && files[k].path == f
    decreases |files|
  {
    if |files| == 0 then []
    else
      var init := files[..|files| - 1];
      var last := files[|files| - 1];
      assert forall k :: 0 <= k < |init| ==> init[k] == files[k];
      ListedPaths(init) + (if Listed(last) then [last.path] else [])
  }

  const MaxDirectories: nat := 20
  const MaxFiles: nat := 30

  /** The directories shown: the distinct tree paths, sorted, at most twenty. */
  function ShownDirs(files: seq<TreeEntry>): seq<string> {
    Take(Sort(Unique(DirPaths(files))), MaxDirectories)
  }

  /** The files shown: the listed blob paths, sorted, at most thirty. */
  function ShownFiles(files: seq<TreeEntry>): seq<string> {
    Take(Sort(ListedPaths(files)), MaxFiles)
  }

  function DirLine(dir: string): string {
    "  " + FolderIcon + " " + dir + "/"
  }

  function FileLine(file: string): string {
    "  " + FileIcon(file) + " " + file
  }

  function DirLines(dirs: seq<string>): (r: seq<string>)
    ensures |r| == |dirs|
  {
    seq(|dirs|, i requires 0 <= i < |dirs| => DirLine(dirs[i]))
  }

  function FileLines(fs: seq<string>): (r: seq<string>)
    ensures |r| == |fs|
  {
    seq(|fs|, i requires 0 <= i < |fs| => FileLine(fs[i]))
  }

  /** The lines of a listing: the directory section, a blank line, the file section. */
  function Listing(dirLines: seq<string>, fileLines: seq<string>): seq<string> {
    ["Directories:"] + dirLines + ["", "Key Files:"] + fileLines
  }

  function TreeLines(files: seq<TreeEntry>): seq<string> {
    Listing(DirLines(ShownDirs(files)), FileLines(ShownFiles(files)))
  }

  /** The listing text, every line ended by a newline. */
  function FileTreeText(files: seq<TreeEntry>): string {
    Lines(TreeLines(files))
  }

  // ---------------------------------------------------------------------------
  // generateFileTree
  // ---------------------------------------------------------------------------

  /** The `forEach` pass of `generateFileTree`: the set of tree paths and the list of listed blob paths. */
  method CollectPaths(files: seq<TreeEntry>) returns (directories: seq<string>, fileList: seq<string>)
    ensures directories == Unique(DirPaths(files))
    ensures fileList == ListedPaths(files)
  {
    directories := [];
    fileList := [];
    for i := 0 to |files|
      invariant directories == Unique(DirPaths(files[..i]))
      invariant fileList == ListedPaths(files[..i])
    {
      CollectStep(files, i);
      var file := files[i];
      if file.kind == Tree {
        if file.path !in directories {
          directories := directories + [file.path];
        }
      } else if file.kind == Blob && !Includes(file.path, "node_modules") && !Includes(file.path, ".git/") {
        fileList := fileList + [file.path];
      }
    }
    assert files[..|files|] == files;
  }

  /** `generateFileTree(files)`: collects, sorts and prints the directories and files. */
  method GenerateFileTree(files: seq<TreeEntry>) returns (tree: string)
    ensures tree == FileTreeText(files)
  {
    var directories, fileList := CollectPaths(files);
    var sortedDirs := Sort(directories);
    var sortedFiles := Sort(fileList);
    var shownDirs := Take(sortedDirs, MaxDirectories);
    var shownFiles := Take(sortedFiles, MaxFiles);

    ghost var first: seq<string> := ["Directories:"];
    tree := "Directories:\n";
    for k := 0 to |shownDirs|
      invariant tree == Lines(first + DirLines(shownDirs[..k]))
    {
      var line := "  " + FolderIcon + " " + shownDirs[k] + "/\n";
      DirLinesStep(shownDirs, k);
      AppendLine(first, DirLines(shownDirs[..k]), DirLine(shownDirs[k]));
      tree := tree + line;
    }
    assert shownDirs[..|shownDirs|] == shownDirs;
    ghost var top := first + DirLines(shownDirs) + ["", "Key Files:"];
    Headings(first + DirLines(shownDirs));
    tree := tree + "\nKey Files:\n";
    assert top + FileLines(shownFiles[..0]) == top;
    for k := 0 to |shownFiles|
      invariant tree == Lines(top + FileLines(shownFiles[..k]))
    {
      var icon := FileIcon(shownFiles[k]);
      var line := "  " + icon + " " + shownFiles[k] + "\n";
      FileLinesStep(shownFiles, k);
      AppendLine(top, FileLines(shownFiles[..k]), FileLine(shownFiles[k]));
      tree := tree + line;
    }
    assert shownFiles[..|shownFiles|] == shownFiles;
  }

  lemma DirLinesStep(dirs: seq<string>, k: nat)
    requires k < |dirs|
    ensures DirLines(dirs[..k + 1]) == DirLines(dirs[..k]) + [DirLine(dirs[k])]
  {
    assert dirs[..k + 1][..k] == dirs[..k];
  }

  lemma FileLinesStep(fs: seq<string>, k: nat)
    requires k < |fs|
    ensures FileLines(fs[..k + 1]) == FileLines(fs[..k]) + [FileLine(fs[k])]
  {
    assert fs[..k + 1][..k] == fs[..k];
  }

  /** Printing one more line after `p + a`. */
  lemma AppendLine(p: seq<string>, a: seq<string>, l: string)
    ensures Lines(p + (a + [l])) == Lines(p + a) + l + "\n"
  {
    assert p + (a + [l]) == (p + a) + [l];
    LinesAppend(p + a, l);
  }

  /** The blank line and the second heading. */
  lemma Headings(p: seq<string>)
    ensures Lines(p + ["", "Key Files:"]) == Lines(p) + "\nKey Files:\n"
  {
    var middle: seq<string> := ["", "Key Files:"];
    LinesConcat(p, middle);
    assert Lines(middle) == "\nKey Files:\n";
  }

  lemma CollectStep(files: seq<TreeEntry>, i: nat)
    requires i < |files|
    ensures var e := files[i];
      && Unique(DirPaths(files[..i + 1])) ==
         (if e.kind == Tree && e.path !in Unique(DirPaths(files[..i]))
          then Unique(DirPaths(files[..i])) + [e.path] else Unique(DirPaths(files[..i])))
      && ListedPaths(files[..i + 1]) ==
         ListedPaths(files[..i]) + (if Listed(e) then [e.path] else [])
  {
    var pre := files[..i + 1];
    assert pre[..i] == files[..i];
    assert pre[i] == files[i];
    assert DirPaths(pre) == DirPaths(files[..i]) + (if files[i].kind == Tree then [files[i].path] else []);
    if files[i].kind == Tree {
      UniqueAppend(DirPaths(files[..i]), files[i].path);
    } else {
      assert DirPaths(pre) == DirPaths(files[..i]);
    }
  }

  /** A listing's text is its first heading, the directory lines, a blank line, the second heading and the file lines. */
  lemma ListingText(a: seq<string>, b: seq<string>)
    ensures Lines(Listing(a, b)) == "Directories:\n" + Lines(a) + "\nKey Files:\n" + Lines(b)
  {
    var first: seq<string> := ["Directories:"];
    var middle: seq<string> := ["", "Key Files:"];
    LinesConcat(first + a + middle, b);
    LinesConcat(first + a, middle);
    LinesConcat(first, a);
    assert Lines(first) == "Directories:\n";
    assert Lines(middle) == "\nKey Files:\n";
  }

  // ---------------------------------------------------------------------------
  // What the listing shows
  // ---------------------------------------------------------------------------

  /**
   * The directories shown are distinct tree paths in sort order, at most
   * twenty of them, and they are the least: every tree path left out sorts
   * after all of them; when there are at most twenty, none is left out.
   */
  lemma ShownDirsSpec(files: seq<TreeEntry>)
    ensures var shown := ShownDirs(files);
      && |shown| <= MaxDirectories
      && Sorted(shown) && Distinct(shown)
      && (forall d :: d in shown ==> exists k :: 0 <= k < |files| && files[k].kind == Tree && files[k].path == d)
    ensures forall d :: d in DirPaths(files) && d !in ShownDirs(files) ==>
      forall e :: e in ShownDirs(files) ==> Le(e, d)
    ensures |Unique(DirPaths(files))| <= MaxDirectories ==>
      forall d :: d in DirPaths(files) ==> d in ShownDirs(files)
  {
    var u := Unique(DirPaths(files));
    var sorted := Sort(u);
    var shown := ShownDirs(files);
    SortDistinct(u);
    assert forall d :: d in sorted <==> d in u by {
      forall d ensures d in sorted <==> d in u {
        assert d in sorted <==> d in multiset(sorted);
        assert d in u <==> d in multiset(u);
      }
    }
    forall d | d in shown ensures d in sorted { }
    forall d | d in DirPaths(files) && d !in shown ensures forall e :: e in shown ==> Le(e, d) {
      SortedTakeLeast(sorted, MaxDirectories, d);
    }
    assert |sorted| == |u| by { assert |multiset(sorted)| == |multiset(u)|; }
  }

  /**
   * The files shown are listed blob paths in sort order, at most thirty,
   * and the least of them; when there are at most thirty, all are shown.
   */
  lemma ShownFilesSpec(files: seq<TreeEntry>)
    ensures var shown := ShownFiles(files);
      && |shown| <= MaxFiles
      && Sorted(shown)
      && (forall f :: f in shown ==> exists k :: 0 <= k < |files| && Listed(files[k]) && files[k].path == f)
    ensures forall f :: f in ListedPaths(files) && f !in ShownFiles(files) ==>
      forall e :: e in ShownFiles(files) ==> Le(e, f)
    ensures |ListedPaths(files)| <= MaxFiles ==>
      multiset(ShownFiles(files)) == multiset(ListedPaths(files))
  {
    var listed := ListedPaths(files);
    var sorted := Sort(listed);
    var shown := ShownFiles(files);
    forall f | f in shown ensures f in listed {
      assert f in sorted;
      assert f in multiset(sorted);
    }
    forall f | f in listed && f !in shown ensures forall e :: e in shown ==> Le(e, f) {
      assert f in multiset(listed);
      SortedTakeLeast(sorted, MaxFiles, f);
    }
    assert |sorted| == |listed| by { assert |multiset(sorted)| == |multiset(listed)|; }
  }

  /** None of the lines holds a line break. */
  predicate SingleLines(ls: seq<string>) {
    forall k :: 0 <= k < |ls| ==> '\n' !in ls[k]
  }

  lemma SingleLinesConcat(a: seq<string>, b: seq<string>)
    requires SingleLines(a) && SingleLines(b)
    ensures SingleLines(a + b)
  {
    forall k | 0 <= k < |a + b| ensures '\n' !in (a + b)[k] {
      if k < |a| { assert (a + b)[k] == a[k]; } else { assert (a + b)[k] == b[k - |a|]; }
    }
  }

  lemma DirLinesSingle(dirs: seq<string>)
    requires forall d :: d in dirs ==> '\n' !in d
    ensures SingleLines(DirLines(dirs))
  {
    forall k | 0 <= k < |dirs| ensures '\n' !in DirLine(dirs[k]) {
      assert dirs[k] in dirs;
    }
  }

  lemma FileLinesSingle(fs: seq<string>)
    requires forall f :: f in fs ==> '\n' !in f
    ensures SingleLines(FileLines(fs))
  {
    forall k | 0 <= k < |fs| ensures '\n' !in FileLine(fs[k]) {
      assert fs[k] in fs;
      IconsSingleLine(fs[k]);
    }
  }

  lemma ShownLinesSingle(files: seq<TreeEntry>)
    requires forall k :: 0 <= k < |files| ==> '\n' !in files[k].path
    ensures SingleLines(TreeLines(files))
  {
    ShownDirsSpec(files);
    ShownFilesSpec(files);
    DirLinesSingle(ShownDirs(files));
    FileLinesSingle(ShownFiles(files));
    ListingSingle(DirLines(ShownDirs(files)), FileLines(ShownFiles(files)));
  }

  lemma ListingSingle(a: seq<string>, b: seq<string>)
    requires SingleLines(a) && SingleLines(b)
    ensures SingleLines(Listing(a, b))
  {
    var first: seq<string> := ["Directories:"];
    var middle: seq<string> := ["", "Key Files:"];
    assert SingleLines(first) && SingleLines(middle);
    SingleLinesConcat(first, a);
    SingleLinesConcat(first + a, middle);
    SingleLinesConcat(first + a + middle, b);
  }

  /**
   * Read back at its newlines, the listing gives its lines: the heading, one
   * line per shown directory, a blank line, the second heading and one line
   * per shown file.
   */
  lemma ReadFileTree(files: seq<TreeEntry>)
    requires forall k :: 0 <= k < |files| ==> '\n' !in files[k].path
    ensures Split(FileTreeText(files), '\n') == TreeLines(files) + [""]
  {
    ShownLinesSingle(files);
    SplitLines(TreeLines(files));
  }
}
