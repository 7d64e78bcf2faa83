/**
 * Which files of a repository tree the digest reads: the importance test
 * on paths, the first fifteen important blobs in tree order, and the cap
 * on the text each contributes.
 */
module FileSelection {
  import opened JsText

  /** The `type` of an entry of a recursive git tree listing. */
  datatype EntryKind = Blob | Tree | Commit

  datatype TreeEntry = TreeEntry(path: string, kind: EntryKind)

  // ---------------------------------------------------------------------------
  // isImportantFile
  // ---------------------------------------------------------------------------

  /** Project manifests that count only at the repository root. */
  const ManifestNames: seq<string> := [
    "package.json", "composer.json", "requirements.txt", "Gemfile", "pom.xml",
    "build.gradle", "Cargo.toml", "go.mod", "setup.py", "Dockerfile",
    "docker-compose.yml", "docker-compose.yaml", ".env.example"
  ]

  /** Source extensions that count under `src/`. */
  const SourceExtensions: seq<string> := ["js", "ts", "jsx", "tsx", "py", "java", "go", "rs", "php", "rb"]

  /** The regular-expression `.` matches no line terminator, so `.*` spans only a single line. */
  predicate SingleLine(p: string) {
    forall k :: 0 <= k < |p| ==> !IsLineTerminator(p[k])
  }

  /** `^src\/.*\.(js|ts|...)$`: under `src/`, on one line, ending in a source extension. */
  predicate IsSourcePath(p: string) {
    SingleLine(p) && StartsWith(p, "src/")
    && exists e :: e in SourceExtensions && |p| >= 5 + |e| && EndsWith(p, "." + e)
  }

  /** `^.*\.(md|txt)$` with the `i` flag: documentation anywhere, in any letter case. */
  predicate IsDocPath(p: string) {
    SingleLine(p) && (EndsWith(ToLower(p), ".md") || EndsWith(ToLower(p), ".txt"))
  }

  /** `^config\/`, `^\.github\/workflows\/`, `^scripts\/`, `^docs\/`: directories whose whole contents count. */
  predicate InListedDirectory(p: string) {
    StartsWith(p, "config/") || StartsWith(p, ".github/workflows/") || StartsWith(p, "scripts/") || StartsWith(p, "docs/")
  }

  /** Some pattern of the list accepts the path. */
  predicate MatchesPattern(p: string) {
    p in ManifestNames || InListedDirectory(p) || IsSourcePath(p) || IsDocPath(p)
  }

  /** The substrings that exclude a path whatever else it matches. */
  predicate Excluded(p: string) {
    Includes(p, "node_modules") || Includes(p, ".git/") || Includes(p, "dist/") || Includes(p, "build/")
  }

  /** `isImportantFile(path)` */
  predicate IsImportantFile(p: string) {
    MatchesPattern(p) && !Excluded(p)
  }

  /** An excluded substring makes a path unimportant even where a pattern accepts it. */
  lemma ExcludedNeverImportant(p: string)
    requires Includes(p, "node_modules") || Includes(p, ".git/") || Includes(p, "dist/") || Includes(p, "build/")
    ensures !IsImportantFile(p)
  {
  }

  /**
   * A path is not excluded when, for each excluded substring, it lacks one
   * of that substring's characters.
   */
  lemma NotExcludedWithout(p: string, a: char, b: char, c: char, d: char)
    requires a in "node_modules" && a !in p
    requires b in ".git/" && b !in p
    requires c in "dist/" && c !in p
    requires d in "build/" && d !in p
    ensures !Excluded(p)
  {
    IncludesNeedsChar(p, "node_modules", a);
    IncludesNeedsChar(p, ".git/", b);
    IncludesNeedsChar(p, "dist/", c);
    IncludesNeedsChar(p, "build/", d);
  }

  /** No `_` and no `/`: such a name holds none of the excluded substrings. */
  predicate Plain(m: string) {
    forall k :: 0 <= k < |m| ==> m[k] != '_' && m[k] != '/'
  }

  lemma ManifestsPlainFirst()
    ensures Plain("package.json") && Plain("composer.json") && Plain("requirements.txt") && Plain("Gemfile")
  {
  }

  lemma ManifestsPlainMiddle()
    ensures Plain("pom.xml") && Plain("build.gradle") && Plain("Cargo.toml") && Plain("go.mod") && Plain("setup.py")
  {
  }

  lemma ManifestsPlainLast()
    ensures Plain("Dockerfile") && Plain("docker-compose.yml") && Plain("docker-compose.yaml") && Plain(".env.example")
  {
  }

  /** No manifest name holds a `_` or a `/`. */
  lemma ManifestsPlain()
    ensures forall m :: m in ManifestNames ==> Plain(m)
  {
    ManifestsPlainFirst();
    ManifestsPlainMiddle();
    ManifestsPlainLast();
  }

  /** Every root manifest is important: lacking `_` and `/`, it holds no excluded substring. */
  lemma ManifestIsImportant(m: string)
    requires m in ManifestNames
    ensures IsImportantFile(m)
  {
    ManifestsPlain();
    assert '_' !in m && '/' !in m;
    NotExcludedWithout(m, '_', '/', '/', '/');
  }

  /** `src/` + `x` + `.` + `e` stays on one line when `x` does and `e` is a listed extension. */
  lemma SourcePathSingleLine(x: string, e: string)
    requires e in SourceExtensions && SingleLine(x)
    ensures SingleLine("src/" + x + "." + e)
  {
    var p := "src/" + x + "." + e;
    forall k | 0 <= k < |p| ensures !IsLineTerminator(p[k]) {
      if 4 <= k < 4 + |x| {
        assert p[k] == x[k - 4];
      } else if k > 4 + |x| {
        assert p[k] == e[k - 5 - |x|];
      }
    }
  }

  /** `src/` + `x` + `.` + `e` is a source path for any single-line `x` and listed extension `e`. */
  lemma SourcePathOf(x: string, e: string)
    requires e in SourceExtensions && SingleLine(x)
    ensures IsSourcePath("src/" + x + "." + e)
  {
    var p := "src/" + x + "." + e;
    SourcePathSingleLine(x, e);
    assert p[..4] == "src/";
    assert StartsWith(p, "src/");
    assert p[|p| - |e| - 1..] == "." + e;
    assert EndsWith(p, "." + e) && |p| >= 5 + |e|;
  }

  /** Any single-line name under `src/` with a listed source extension is important unless excluded. */
  lemma SourceIsImportant(x: string, e: string)
    requires e in SourceExtensions && SingleLine(x)
    requires !Excluded("src/" + x + "." + e)
    ensures IsImportantFile("src/" + x + "." + e)
  {
    SourcePathOf(x, e);
  }

  const WorkflowDir: string := ".github/workflows/"

  /**
   * A word that the prefix does not contain, and whose characters before its
   * last differ from the prefix's last character, occurs in `pre + x` only
   * inside `x`.
   */
  lemma IncludesPastPrefix(pre: string, x: string, w: string)
    requires |pre| > 0 && !Includes(pre, w)
    requires forall j :: 0 <= j < |w| - 1 ==> w[j] != pre[|pre| - 1]
    ensures Includes(pre + x, w) <==> Includes(x, w)
  {
    var s := pre + x;
    if Includes(s, w) {
      var i: nat :| i <= |s| && OccursAt(s, w, i);
      CrossingOccurrence(pre, x, w, i);
      if i >= |pre| {
        assert s[i..i + |w|] == x[i - |pre|..i - |pre| + |w|];
        IncludesAt(x, w, i - |pre|);
      } else if i + |w| <= |pre| {
        assert s[i..i + |w|] == pre[i..i + |w|];
        IncludesAt(pre, w, i);
      }
    }
    if Includes(x, w) {
      var i: nat :| i <= |x| && OccursAt(x, w, i);
      assert s[|pre| + i..|pre| + i + |w|] == x[i..i + |w|];
      IncludesAt(s, w, |pre| + i);
    }
  }

  /** An occurrence that starts in `pre` and ends in `x` holds the last character of `pre`. */
  lemma CrossingOccurrence(pre: string, x: string, w: string, i: nat)
    requires OccursAt(pre + x, w, i)
    ensures i < |pre| < i + |w| ==> w[|pre| - 1 - i] == pre[|pre| - 1]
  {
    if i < |pre| < i + |w| {
      assert w[|pre| - 1 - i] == (pre + x)[i..i + |w|][|pre| - 1 - i] == (pre + x)[|pre| - 1];
    }
  }

  /** `.git/` needs a `/` four places after a `.`, which `.github/workflows/` never has. */
  lemma GitHubIsNotGit()
    ensures !Includes(WorkflowDir, ".git/")
  {
    var p := WorkflowDir;
    forall i: nat ensures !OccursAt(p, ".git/", i) {
      if i + 5 <= |p| {
        assert p[i..i + 5][0] == p[i] && p[i..i + 5][4] == p[i + 4];
        assert p[i] != '.' || p[i + 4] != '/';
      }
    }
  }

  /** Prefixing `.github/workflows/` adds none of the excluded substrings. */
  lemma WorkflowExcluded(x: string)
    ensures Excluded(WorkflowDir + x) <==> Excluded(x)
  {
    var p := WorkflowDir;
    assert p[|p| - 1] == '/';
    GitHubIsNotGit();
    IncludesNeedsChar(p, "node_modules", '_');
    IncludesNeedsChar(p, "dist/", 'd');
    IncludesNeedsChar(p, "build/", 'd');
    IncludesPastPrefix(p, x, "node_modules");
    IncludesPastPrefix(p, x, ".git/");
    IncludesPastPrefix(p, x, "dist/");
    IncludesPastPrefix(p, x, "build/");
  }

  /**
   * A path under `.github/workflows/` is important exactly when the rest of
   * it holds no excluded substring: the `.git/` exclusion does not catch
   * `.github/`.
   */
  lemma WorkflowIsImportant(x: string)
    ensures IsImportantFile(WorkflowDir + x) <==> !Excluded(x)
  {
    WorkflowExcluded(x);
    assert (WorkflowDir + x)[..|WorkflowDir|] == WorkflowDir;
    assert InListedDirectory(WorkflowDir + x);
  }

  /** Any single-line path ending in `.md` or `.txt`, in any letter case, is important unless excluded. */
  lemma DocumentationIsImportant(p: string)
    requires SingleLine(p) && (EndsWith(ToLower(p), ".md") || EndsWith(ToLower(p), ".txt"))
    requires !Excluded(p)
    ensures IsImportantFile(p)
  {
  }

  /** Anything under one of the listed directories is important unless excluded. */
  lemma DirectoryIsImportant(p: string)
    requires InListedDirectory(p)
    requires !Excluded(p)
    ensures IsImportantFile(p)
  {
  }

  /** A manifest name is matched only as the whole path: inside a sub-directory it does not count. */
  lemma NestedManifestIsNot(p: string)
    requires p == "app/package.json"
    ensures !IsImportantFile(p)
  {
    NotAManifest(p);
    assert !InListedDirectory(p) by {
      assert p[..7][0] == 'a' && p[..8][0] == 'a' && p[..5][0] == 'a';
    }
    assert !IsSourcePath(p) by {
      assert p[..4][0] == 'a';
    }
    NotADocument(p);
  }

  lemma NotAManifest(p: string)
    requires p == "app/package.json"
    ensures p !in ManifestNames
  {
    forall m | m in ManifestNames ensures p != m {
      assert |m| != |p| || m[0] != p[0];
    }
  }

  lemma NotADocument(p: string)
    requires p == "app/package.json"
    ensures !IsDocPath(p)
  {
    assert ToLower(p)[|p| - 1] == 'n';
  }

  // ---------------------------------------------------------------------------
  // The files the digest reads
  // ---------------------------------------------------------------------------

  /** The cap on how many files are fetched. */
  const MaxFetched: nat := 15

  /** The `filter` callback: a blob whose path is important. */
  predicate Wanted(e: TreeEntry) {
    e.kind == Blob && IsImportantFile(e.path)
  }

  /** `importantFiles`: the wanted entries in tree order. */
  function ImportantFiles(files: seq<TreeEntry>): seq<TreeEntry> {
    Filter(files, Wanted)
  }

  /** `importantFiles.slice(0, 15)` */
  function Selected(files: seq<TreeEntry>): seq<TreeEntry> {
    Take(ImportantFiles(files), MaxFetched)
  }

  /** At most fifteen files, each a wanted blob, kept in tree order. */
  lemma SelectedShape(files: seq<TreeEntry>)
    ensures |Selected(files)| <= MaxFetched
    ensures forall k :: 0 <= k < |Selected(files)| ==> Wanted(Selected(files)[k]) && Selected(files)[k] in files
    ensures Subsequence(Selected(files), files)
  {
    var imp := ImportantFiles(files);
    var sel := Selected(files);
    assert sel == imp[..|sel|];
    forall k | 0 <= k < |sel| ensures Wanted(sel[k]) && sel[k] in files {
      assert sel[k] == imp[k];
    }
    FilterSubsequence(files, Wanted);
    PrefixSubsequence(sel, imp, files);
  }

  lemma {:induction false} PrefixSubsequence<T>(a: seq<T>, b: seq<T>, c: seq<T>)
    requires |a| <= |b| && a == b[..|a|] && Subsequence(b, c)
    ensures Subsequence(a, c)
    decreases |c|
  {
    if |a| > 0 && |c| > 0 {
      if b[0] == c[0] && Subsequence(b[1..], c[1..]) {
        assert a[1..] == b[1..][..|a| - 1];
        PrefixSubsequence(a[1..], b[1..], c[1..]);
      } else {
        PrefixSubsequence(a, b, c[1..]);
      }
    }
  }

  /**
   * A wanted entry is fetched whenever fewer than fifteen wanted entries
   * come before it in the tree.
   */
  lemma SelectedWhenEarly(files: seq<TreeEntry>, i: nat)
    requires i < |files| && Wanted(files[i])
    requires |ImportantFiles(files[..i])| < MaxFetched
    ensures files[i] in Selected(files)
  {
    FilterTakeEarly(files, Wanted, i, MaxFetched);
  }

  /** With at most fifteen wanted entries, every one of them is fetched. */
  lemma AllSelectedWhenFew(files: seq<TreeEntry>, e: TreeEntry)
    requires |ImportantFiles(files)| <= MaxFetched
    requires e in files && Wanted(e)
    ensures e in Selected(files)
  {
    FilterKeeps(files, Wanted, e);
  }

  // ---------------------------------------------------------------------------
  // The text each fetched file contributes
  // ---------------------------------------------------------------------------

  /** The number of characters of a file body kept in full. */
  const MaxBody: nat := 2000

  const TruncationMark: string := "...[truncated]"

  /** A body longer than the cap keeps its first 2000 characters and gains the mark. */
  function Truncate(content: string): string {
    if |content| > MaxBody then content[..MaxBody] + TruncationMark else content
  }

  /** Short bodies pass unchanged; long ones keep their start, gain the mark and stay bounded. */
  lemma TruncateShape(content: string)
    ensures |content| <= MaxBody ==> Truncate(content) == content
    ensures |content| > MaxBody ==>
      && StartsWith(Truncate(content), content[..MaxBody])
      && EndsWith(Truncate(content), TruncationMark)
      && |Truncate(content)| == MaxBody + |TruncationMark|
    ensures |Truncate(content)| <= MaxBody + |TruncationMark|
  {
  }

  /** Truncating twice is truncating once. */
  lemma TruncateIdempotent(content: string)
    ensures Truncate(Truncate(content)) == Truncate(content)
  {
    if |content| > MaxBody {
      var t := Truncate(content);
      assert t[..MaxBody] == content[..MaxBody];
    }
  }

  /** The answer to one contents request. */
  datatype FetchOutcome =
    | Fetched(text: string)   // a non-empty `content` field, already base64-decoded
    | NoContent               // the response has no (or an empty) `content` field
    | FetchFailed             // the request failed; a warning is logged and the file is skipped

  /** What one selected file adds to the digest: a headed, capped block, or nothing. */
  function FileBlock(path: string, outcome: FetchOutcome): string {
    match outcome
    case Fetched(text) => "\n--- " + path + " ---\n" + Truncate(text) + "\n"
    case NoContent => ""
    case FetchFailed => ""
  }

  /** A block is never longer than its heading, the capped body and the closing newline. */
  lemma FileBlockBound(path: string, outcome: FetchOutcome)
    ensures |FileBlock(path, outcome)| <= |path| + 11 + MaxBody + |TruncationMark|
    ensures outcome.Fetched? ==> Includes(FileBlock(path, outcome), Truncate(outcome.text))
    ensures !outcome.Fetched? ==> FileBlock(path, outcome) == ""
  {
    if outcome.Fetched? {
      TruncateShape(outcome.text);
      var t := Truncate(outcome.text);
      var head := "\n--- " + path + " ---\n";
      assert FileBlock(path, outcome) == head + t + "\n";
      assert (head + t + "\n")[|head|..|head| + |t|] == t;
      IncludesAt(FileBlock(path, outcome), t, |head|);
    }
  }
}
