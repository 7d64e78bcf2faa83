/**
 * The repository digest handed to the text generator: a metadata header,
 * the rendered file tree, one block per fetched important file and the
 * detected technologies, in that order.  The three requests the digest
 * needs (repository metadata, the recursive tree and each file's contents)
 * are parameters: an absent answer stands for a failed request.
 */
module RepoContent {
  import opened Wrappers
  import opened JsText
  import opened FileSelection
  import opened FileTree
  import opened Technologies

  /** The repository metadata fields the digest prints. */
  datatype RepoInfo = RepoInfo(
    name: string,
    description: Option<string>,     // `null` is None
    language: Option<string>,        // `null` is None
    stars: nat,
    forks: nat,
    license: Option<string>,         // the license's name; None when there is no license object
    topics: Option<seq<string>>)     // None when the field is missing

  /** `value || fallback` on a string that may be `null`: the empty string is falsy too. */
  function OrElse(value: Option<string>, fallback: string): string {
    if value.Some? && value.value != "" then value.value else fallback
  }

  /** `topics?.join(', ')` */
  function TopicsText(topics: Option<seq<string>>): Option<string> {
    match topics
    case None => None
    case Some(ts) => Some(Join(ts, ", "))
  }

  /** The seven metadata lines and the blank line after them. */
  function MetadataLines(info: RepoInfo): (ls: seq<string>)
    ensures |ls| == 8
  {
    [ "Repository: " + info.name,
      "Description: " + OrElse(info.description, "No description provided"),
      "Language: " + OrElse(info.language, "Not specified"),
      "Stars: " + NatToString(info.stars),
      "Forks: " + NatToString(info.forks),
      "License: " + OrElse(info.license, "No license"),
      "Topics: " + OrElse(TopicsText(info.topics), "None"),
      "" ]
  }

  function Header(info: RepoInfo): string {
    Lines(MetadataLines(info))
  }

  const StructureHeading: string := "=== PROJECT STRUCTURE ===\n"
  const FilesHeading: string := "\n\n=== IMPORTANT FILES ANALYSIS ===\n"
  const TechnologiesHeading: string := "\n=== DETECTED TECHNOLOGIES ===\n"

  const NoToken: string := "No GitHub token found"
  const FetchFailure: string := "Failed to fetch repository content"

  /** The blocks of the given files, in order, each from its own contents request. */
  function Blocks(selected: seq<TreeEntry>, fetch: string -> FetchOutcome): string
    decreases |selected|
  {
    if |selected| == 0 then ""
    else
      var last := selected[|selected| - 1];
      Blocks(selected[..|selected| - 1], fetch) + FileBlock(last.path, fetch(last.path))
  }

  /** Everything the digest holds before the technology lines; detection reads this text. */
  function Analysed(info: RepoInfo, files: seq<TreeEntry>, fetch: string -> FetchOutcome): string {
    Header(info) + StructureHeading + FileTreeText(files) + FilesHeading
      + Blocks(Selected(files), fetch) + TechnologiesHeading
  }

  function Digest(info: RepoInfo, files: seq<TreeEntry>, fetch: string -> FetchOutcome): string {
    var analysed := Analysed(info, files, fetch);
    analysed + TechnologiesText(files, analysed)
  }

  /**
   * The outcome of `getRepoContent`: no usable token is reported before
   * any request; a failed metadata or tree request gives the one generic
   * failure; otherwise the digest.
   */
  function RepoContent(token: Option<string>, info: Option<RepoInfo>, tree: Option<seq<TreeEntry>>,
                       fetch: string -> FetchOutcome): Result<string, string> {
    if token.None? || token.value == "" then Err(NoToken)
    else if info.None? || tree.None? then Err(FetchFailure)
    else Ok(Digest(info.value, tree.value, fetch))
  }

  /** `getRepoContent(repoFullName)` */
  method GetRepoContent(token: Option<string>, info: Option<RepoInfo>, tree: Option<seq<TreeEntry>>,
                        fetch: string -> FetchOutcome) returns (r: Result<string, string>)
    ensures r == RepoContent(token, info, tree, fetch)
  {
    if token.None? || token.value == "" {
      return Err(NoToken);
    }
    if info.None? || tree.None? {
      return Err(FetchFailure);
    }
    var files := tree.value;
    var analysisContent := "";
    analysisContent := analysisContent + Header(info.value);
    EmptyPrefix(Header(info.value));

    var importantFiles := ImportantFiles(files);

    analysisContent := analysisContent + StructureHeading;
    var fileTree := GenerateFileTree(files);
    analysisContent := analysisContent + fileTree;
    analysisContent := analysisContent + FilesHeading;

    var selected := Take(importantFiles, MaxFetched);
    ghost var before := analysisContent;
    assert selected[..0] == [];
    for i := 0 to |selected|
      invariant analysisContent == before + Blocks(selected[..i], fetch)
    {
      var file := selected[i];
      var outcome := fetch(file.path);
      ghost var done := analysisContent;
      if outcome.Fetched? {
        analysisContent := analysisContent + ("\n--- " + file.path + " ---\n");
        analysisContent := analysisContent + Truncate(outcome.text);
        analysisContent := analysisContent + "\n";
      }
      BlockAppended(before, selected, i, fetch, done, analysisContent);
    }
    assert selected[..|selected|] == selected;

    analysisContent := analysisContent + TechnologiesHeading;
    var technologies := DetectTechnologies(files, analysisContent);
    analysisContent := analysisContent + technologies;
    r := Ok(analysisContent);
  }

  /** One pass of the fetch loop extends the digest by that file's block. */
  lemma BlockAppended(before: string, selected: seq<TreeEntry>, i: nat, fetch: string -> FetchOutcome,
                      done: string, after: string)
    requires i < |selected| && done == before + Blocks(selected[..i], fetch)
    requires var outcome := fetch(selected[i].path);
      after == if outcome.Fetched?
               then done + ("\n--- " + selected[i].path + " ---\n") + Truncate(outcome.text) + "\n"
               else done
    ensures after == before + Blocks(selected[..i + 1], fetch)
  {
    var path := selected[i].path;
    var block := FileBlock(path, fetch(path));
    assert selected[..i + 1][..i] == selected[..i];
    assert Blocks(selected[..i + 1], fetch) == Blocks(selected[..i], fetch) + block;
    AppendAssociates(before, Blocks(selected[..i], fetch), block);
    if fetch(path).Fetched? {
      var head, body := "\n--- " + path + " ---\n", Truncate(fetch(path).text);
      assert block == head + body + "\n";
      AppendAssociates(done + head, body, "\n");
      AppendAssociates(done, head, body + "\n");
      AppendAssociates(head, body, "\n");
    } else {
      assert block == "";
    }
  }

  // ---------------------------------------------------------------------------
  // What the digest contains
  // ---------------------------------------------------------------------------

  lemma {:induction false} BlocksAppend(a: seq<TreeEntry>, b: seq<TreeEntry>, fetch: string -> FetchOutcome)
    ensures Blocks(a + b, fetch) == Blocks(a, fetch) + Blocks(b, fetch)
    decreases |b|
  {
    if |b| > 0 {
      var b' := b[..|b| - 1];
      assert (a + b)[..|a + b| - 1] == a + b';
      BlocksAppend(a, b', fetch);
    } else {
      assert a + b == a;
    }
  }

  /** Only the answers for the selected files shape the blocks. */
  lemma {:induction false} BlocksAgree(selected: seq<TreeEntry>, f: string -> FetchOutcome, g: string -> FetchOutcome)
    requires forall e :: e in selected ==> f(e.path) == g(e.path)
    ensures Blocks(selected, f) == Blocks(selected, g)
    decreases |selected|
  {
    if |selected| > 0 {
      BlocksAgree(selected[..|selected| - 1], f, g);
    }
  }

  /**
   * Contents requests are made for the selected files only: two request
   * functions that answer alike on those paths give the same digest.
   */
  lemma OnlySelectedFetched(info: RepoInfo, files: seq<TreeEntry>, f: string -> FetchOutcome, g: string -> FetchOutcome)
    requires forall e :: e in Selected(files) ==> f(e.path) == g(e.path)
    ensures Digest(info, files, f) == Digest(info, files, g)
  {
    BlocksAgree(Selected(files), f, g);
  }

  /** A fetched file's capped body appears in the blocks. */
  lemma BlocksInclude(selected: seq<TreeEntry>, fetch: string -> FetchOutcome, e: TreeEntry)
    requires e in selected && fetch(e.path).Fetched?
    ensures Includes(Blocks(selected, fetch), Truncate(fetch(e.path).text))
  {
    var j :| 0 <= j < |selected| && selected[j] == e;
    assert selected == selected[..j] + [e] + selected[j + 1..];
    BlocksAppend(selected[..j] + [e], selected[j + 1..], fetch);
    BlocksAppend(selected[..j], [e], fetch);
    assert Blocks([e], fetch) == FileBlock(e.path, fetch(e.path)) by {
      assert [e][..0] == [];
      EmptyPrefix(FileBlock(e.path, fetch(e.path)));
    }
    FileBlockBound(e.path, fetch(e.path));
    IncludesInContext(Blocks(selected[..j], fetch), FileBlock(e.path, fetch(e.path)), Blocks(selected[j + 1..], fetch),
                      Truncate(fetch(e.path).text));
  }

  /** The text detection reads contains the capped body of every fetched selected file. */
  lemma AnalysedIncludesFetched(info: RepoInfo, files: seq<TreeEntry>, fetch: string -> FetchOutcome, e: TreeEntry)
    requires e in Selected(files) && fetch(e.path).Fetched?
    ensures Includes(Analysed(info, files, fetch), Truncate(fetch(e.path).text))
  {
    BlocksInclude(Selected(files), fetch, e);
    IncludesInContext(Header(info) + StructureHeading + FileTreeText(files) + FilesHeading,
                      Blocks(Selected(files), fetch), TechnologiesHeading, Truncate(fetch(e.path).text));
  }

  /**
   * A framework word in the kept part of a fetched file is enough for the
   * framework to be listed.
   */
  lemma FetchedFrameworkDetected(info: RepoInfo, files: seq<TreeEntry>, fetch: string -> FetchOutcome, e: TreeEntry, r: Rule)
    requires e in Selected(files) && fetch(e.path).Fetched?
    requires r in FrameworkRules && r.test.Mentions? && Includes(Truncate(fetch(e.path).text), r.test.word)
    ensures r.name in Detected(FrameworkRules, FileNames(files), Analysed(info, files, fetch))
  {
    var analysed := Analysed(info, files, fetch);
    AnalysedIncludesFetched(info, files, fetch, e);
    IncludesTransitive(analysed, Truncate(fetch(e.path).text), r.test.word);
    MentionedListed(FrameworkRules, r, FileNames(files), analysed);
  }

  /** The digest opens with the metadata header and closes with the technology lines. */
  lemma DigestFrame(info: RepoInfo, files: seq<TreeEntry>, fetch: string -> FetchOutcome)
    ensures StartsWith(Digest(info, files, fetch), Header(info))
    ensures EndsWith(Digest(info, files, fetch), TechnologiesHeading + TechnologiesText(files, Analysed(info, files, fetch)))
  {
    var h := Header(info);
    var s, t, f, b := StructureHeading, FileTreeText(files), FilesHeading, Blocks(Selected(files), fetch);
    var a := Analysed(info, files, fetch);
    var tech := TechnologiesText(files, a);
    var p := h + s + t + f + b;
    assert a == p + TechnologiesHeading;
    AppendAssociates(p, TechnologiesHeading, tech);
    EndsWithAppend(p, TechnologiesHeading + tech);
    AppendAssociates(h, s, t);
    AppendAssociates(h, s + t, f);
    AppendAssociates(h, s + t + f, b);
    AppendAssociates(h, s + t + f + b, TechnologiesHeading + tech);
    StartsWithAppend(h, s + t + f + b + (TechnologiesHeading + tech));
  }

  /** A metadata value with no line break stays on its own line. */
  predicate OneLine(s: string) {
    '\n' !in s
  }

  predicate PlainInfo(info: RepoInfo) {
    && OneLine(info.name)
    && (info.description.Some? ==> OneLine(info.description.value))
    && (info.language.Some? ==> OneLine(info.language.value))
    && (info.license.Some? ==> OneLine(info.license.value))
    && (info.topics.Some? ==> forall k :: 0 <= k < |info.topics.value| ==> OneLine(info.topics.value[k]))
  }

  lemma JoinOneLine(parts: seq<string>, sep: string)
    requires OneLine(sep) && forall k :: 0 <= k < |parts| ==> OneLine(parts[k])
    ensures OneLine(Join(parts, sep))
    decreases |parts|
  {
    if |parts| > 1 {
      JoinOneLine(parts[1..], sep);
    }
  }

  /**
   * Reading the header back line by line gives the seven metadata lines and
   * the blank line, each value or its placeholder in place.
   */
  lemma ReadHeader(info: RepoInfo)
    requires PlainInfo(info)
    ensures Split(Header(info), '\n') == MetadataLines(info) + [""]
    ensures MetadataLines(info)[1] == "Description: " + (if info.description == None || info.description == Some("") then "No description provided" else info.description.value)
    ensures MetadataLines(info)[6] == "Topics: " + (if info.topics == None || Join(info.topics.value, ", ") == "" then "None" else Join(info.topics.value, ", "))
  {
    MetadataOneLine(info);
    SplitLines(MetadataLines(info));
  }

  lemma MetadataOneLine(info: RepoInfo)
    requires PlainInfo(info)
    ensures forall k :: 0 <= k < |MetadataLines(info)| ==> '\n' !in MetadataLines(info)[k]
  {
    var ls := MetadataLines(info);
    forall k | 0 <= k < |ls| ensures '\n' !in ls[k] {
      if k == 0 {
        NoBreak("Repository: ", info.name);
      } else if k == 1 {
        NoBreak("Description: ", OrElse(info.description, "No description provided"));
      } else if k == 2 {
        NoBreak("Language: ", OrElse(info.language, "Not specified"));
      } else if k == 3 {
        NoBreak("Stars: ", NatToString(info.stars));
      } else if k == 4 {
        NoBreak("Forks: ", NatToString(info.forks));
      } else if k == 5 {
        NoBreak("License: ", OrElse(info.license, "No license"));
      } else if k == 6 {
        if info.topics.Some? {
          JoinOneLine(info.topics.value, ", ");
        }
        NoBreak("Topics: ", OrElse(TopicsText(info.topics), "None"));
      }
    }
  }

  lemma NoBreak(prefix: string, value: string)
    requires '\n' !in prefix && OneLine(value)
    ensures '\n' !in prefix + value
  {
  }
}
