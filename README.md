# README generator: a verified model of the digest and generation pipeline

The README generator is a browser application. It signs a user in to GitHub
and lets them pick one of their repositories. It condenses that repository
into a plain-text *digest*, asks a Gemini model to write a README from the
digest, and can commit the result back. This project models the logic
behind that flow in Dafny. Every network request, storage access, clock
reading and model call is a parameter. The modelled parts are:

- **The digest** (`src/services/github.ts`). It covers:
  - which files count as important;
  - the first fifteen important blobs, each body capped at 2000 characters;
  - the project-structure listing with its file icons;
  - technology detection;
  - the fixed order of the digest's blocks.

  Two small codecs sit beside it:
  - the manual UTF-16 to UTF-8 loop that the Base64 helper falls back on;
  - the reader of the `Link` header's `next` page.
- **The quota ledger** (`src/services/quota-manager.ts`). A class keeps one
  counter per Gemini model with a daily limit and a reset time. It mirrors
  the counters in a key-value store.
- **The generator** (`src/services/llm.ts`). It tries the models that still
  have quota, in a fixed priority order. A rate-limited model is retried up
  to three times, waiting 5 s and then 10 s. Any other error moves on to the
  next model. The first answer is recorded in the ledger.
- **The alternative generator** (`src/services/llm-alternatives.ts`). It has
  an ordered fallback over three models. When the final error names the rate
  limit, it switches to a template README. The template is built from the
  digest alone.
- **The repository picker** (`src/components/RepoSelector.tsx`). It covers
  search and language filtering, the distinct language list, pages of twelve
  and the language colour badge.

Modules:

| module | contents |
|---|---|
| `Wrappers` | `Option` and `Result` |
| `JsText` | the JavaScript string and array operations the code relies on, on `seq<char>` |
| `Bits` | `|`, `&`, `>>` and `<<` on naturals |
| `Utf8Fallback` | the UTF-8 fallback loop |
| `LinkHeader` | `getNextPageUrl` |
| `FileSelection` | `isImportantFile`, selection, truncation |
| `FileTree` | `generateFileTree`, `getFileIcon` |
| `Technologies` | `detectTechnologies` |
| `RepoContent` | `getRepoContent` |
| `Quota` | `QuotaManager` |
| `Llm` | `generateReadme` |
| `LlmAlternatives` | `generateReadmeWithFallback`, `generateWithGoogle`, `generateWithTemplate` |
| `RepoSelector` | the picker's filtering and paging |

Imperative source code is modelled as methods with loops, and each method is
proved equal to a specification function. This covers:
- the UTF-8 loop;
- the tree renderer;
- the three detection lists;
- the digest loop;
- the ledger class;
- the retry loop;
- the model fallback loop.

Expression code is modelled as functions and lemmas. This covers:
- the `Link` header reader;
- the importance test;
- the template;
- the picker.

Behaviour of the code that is easy to misread, and that the model follows as written:
- Tools are detected from file names (`package.json`, `dockerfile`, ...), not from file contents.
- Language detection looks at every path of the tree, `node_modules` included. A tree that holds `node_modules/x/index.js` therefore also reports JavaScript.
- A rate-limited model waits 5000 ms after its first attempt and 10000 ms after its second. After its third attempt it is abandoned without waiting. There is no third delay, and the delays grow linearly.
- A `Link` header segment without `;` makes `getNextPageUrl` throw a `TypeError`, because the missing half is read with `.includes`. `LinkHeader.MissingParametersThrow` states this. GitHub never sends such a header, so this is recorded here and not as a finding.

## Model

| member | source | states |
|---|---|---|
| `Utf8Fallback.CodePoints` | src/services/github.ts:19-32 | the code points the loop reads are all Unicode scalar values, and there are never more of them than code units |
| `Utf8Fallback.EncodeScalar` | src/services/github.ts:21-38 | a scalar becomes 1, 2, 3 or 4 bytes exactly when it is below 0x80, 0x800, 0x10000 or above; every byte is below 256, the lead byte is in the range of its length and the rest are continuation bytes |
| `Utf8Fallback.Utf8Encode` | src/services/github.ts:18-40 | every byte is below 256 and a sequence of n code points gives between n and 4n bytes |
| `Utf8Fallback.EncodeUtf8Fallback` | src/services/github.ts:18-40 | the loop's byte list is the UTF-8 encoding (RFC 3629 section 3) of the code points it reads, and every byte is below 256 |
| `Utf8Fallback.TwoBytes` | src/services/github.ts:23-24 | the shifts and masks of the two-byte branch compute the standard two-byte encoding |
| `Utf8Fallback.ThreeBytes` | src/services/github.ts:25-26 | the shifts and masks of the three-byte branch compute the standard three-byte encoding |
| `Utf8Fallback.FourBytes` | src/services/github.ts:33-38 | the shifts and masks of the four-byte branch compute the standard four-byte encoding |
| `Utf8Fallback.PairCodePoint` | src/services/github.ts:30-32 | the code point built from a surrogate pair is 0x10000 plus the two 10-bit payloads (RFC 2781 section 2.2) |
| `Utf8Fallback.CodePointsOfUtf16Encode` | src/services/github.ts:19-32 | on well-formed UTF-16 the loop reads back exactly the code points that were encoded |
| `Utf8Fallback.DecodeEncodeScalar` | src/services/github.ts:21-38 | the lead byte announces the length of its sequence and the sequence decodes to the scalar |
| `Utf8Fallback.Utf8DecodeEncode` | src/services/github.ts:18-40 | UTF-8 decoding of the loop's bytes gives back the code points: the encoding is lossless |
| `Utf8Fallback.LoneSurrogateSwallows` | src/services/github.ts:27-32 | as written, the units D800 0041 read as the single code point U+10041 and the letter A is lost |
| `Utf8Fallback.CodePointsReplacing` | src/services/github.ts:27-32 | the corrected reading yields only scalar values |
| `Utf8Fallback.ReplacingRoundTrip` | src/services/github.ts:27-32 | re-encoding the corrected reading gives the input with each lone surrogate replaced by FFFD and every pair kept |
| `Utf8Fallback.LoneSurrogateReplaced` | src/services/github.ts:27-32 | the corrected reading of D800 0041 is U+FFFD followed by A |
| `Utf8Fallback.ReplacingAgrees` | src/services/github.ts:19-32 | on well-formed UTF-16 the corrected and the as-written readings agree and both return the encoded code points |
| `LinkHeader.FirstNextAt` | src/services/github.ts:103-109 | when every earlier segment is well formed and not `next`, the segment at i gives the answer: its trimmed text without the first and last character |
| `LinkHeader.FirstNextIndex` | src/services/github.ts:103-109 | a returned URL comes from a segment that is marked `next` and has only skippable segments before it |
| `LinkHeader.FirstNextNone` | src/services/github.ts:104-110 | null is returned exactly when every segment is well formed and none is marked `next` |
| `LinkHeader.Segments` | src/services/github.ts:103 | one rendered segment per link |
| `LinkHeader.RelPartIsNext` | src/services/github.ts:106 | the parameter part contains `rel="next"` exactly when the relation is `next` |
| `LinkHeader.TrimBracketed` | src/services/github.ts:107 | trimming a space-padded `<url>` leaves `<url>` |
| `LinkHeader.SegmentReads` | src/services/github.ts:105-107 | a rendered segment is well formed, is `next` iff its link is, and yields exactly its URL |
| `LinkHeader.FirstNextOfSegments` | src/services/github.ts:103-110 | over rendered segments, the scan finds the URL of the first `next` link |
| `LinkHeader.SegmentHasNoComma` | src/services/github.ts:103 | a rendered segment with a plain URL contains no comma |
| `LinkHeader.SplitRender` | src/services/github.ts:103 | splitting a rendered header on commas gives back its segments, and the header is not empty |
| `LinkHeader.NextPageUrlOfRender` | src/services/github.ts:101-111 | on a header in GitHub's shape, the result is the URL of the first `next` link, or null when there is none |
| `LinkHeader.MissingParametersThrow` | src/services/github.ts:105-106 | a non-empty header without `;` makes the reader throw a TypeError |
| `FileSelection.ExcludedNeverImportant` | src/services/github.ts:201-205 | a path containing `node_modules`, `.git/`, `dist/` or `build/` is never important, whatever pattern it matches |
| `FileSelection.NotExcludedWithout` | src/services/github.ts:202-205 | a path missing one character of each excluded word is not excluded |
| `FileSelection.ManifestIsImportant` | src/services/github.ts:181-201 | each of the thirteen manifest names, as the whole path, is important |
| `FileSelection.SourceIsImportant` | src/services/github.ts:194-201 | any single-line `src/<x>.<ext>` with a listed source extension is important unless excluded |
| `FileSelection.WorkflowIsImportant` | src/services/github.ts:196-205 | a path `.github/workflows/<x>` is important exactly when `x` holds no excluded substring: the prefix adds none, and `.github/` is not `.git/` |
| `FileSelection.DocumentationIsImportant` | src/services/github.ts:195-205 | any single-line path ending in `.md` or `.txt`, in any letter case, is important unless excluded |
| `FileSelection.DirectoryIsImportant` | src/services/github.ts:193-205 | any path under `config/`, `scripts/`, `docs/` or `.github/workflows/` is important unless excluded |
| `FileSelection.NestedManifestIsNot` | src/services/github.ts:181-192 | `app/package.json` is not important: the manifest patterns are anchored at the root |
| `FileSelection.SelectedShape` | src/services/github.ts:141-150 | at most fifteen files are read, each an important blob of the tree, in tree order |
| `FileSelection.SelectedWhenEarly` | src/services/github.ts:141-150 | an important blob preceded by fewer than fifteen others is read |
| `FileSelection.AllSelectedWhenFew` | src/services/github.ts:141-150 | when there are at most fifteen important blobs, all are read |
| `FileSelection.TruncateShape` | src/services/github.ts:159 | a body of at most 2000 characters is kept as it is; a longer one becomes its first 2000 characters and `...[truncated]` |
| `FileSelection.TruncateIdempotent` | src/services/github.ts:159 | truncating twice is truncating once |
| `FileSelection.FileBlockBound` | src/services/github.ts:156-164 | a fetched file's block contains its truncated body and has bounded length; a failed or empty fetch adds nothing |
| `FileTree.ExtensionOfDotted` | src/services/github.ts:242 | the extension is the lower-cased text after the last dot |
| `FileTree.ExtensionOfUndotted` | src/services/github.ts:242 | a name without a dot is its own extension, lower-cased |
| `FileTree.FileIconOfDotted` | src/services/github.ts:242-250 | the icon is the table's entry for the extension, and the page icon otherwise |
| `FileTree.IconsSingleLine` | src/services/github.ts:243-250 | no icon contains a line break |
| `FileTree.FileIconAsWrittenAgrees` | src/services/github.ts:241-251 | the object-literal lookup differs from the intended table lookup exactly on the inherited member names |
| `FileTree.LongExtensionNotInTable` | src/services/github.ts:243-249 | an extension longer than four characters has no table entry |
| `FileTree.ConstructorExtension` | src/services/github.ts:250 | a file whose extension is `constructor` is shown behind the text of a function, where the page icon was meant |
| `FileTree.DirPaths` | src/services/github.ts:213-215 | the collected directories are exactly the paths of the tree entries |
| `FileTree.ListedPaths` | src/services/github.ts:213-218 | the collected files are exactly the blobs outside `node_modules` and `.git/` |
| `FileTree.DirLines` | src/services/github.ts:227-229 | one line per shown directory |
| `FileTree.FileLines` | src/services/github.ts:232-235 | one line per shown file |
| `FileTree.CollectPaths` | src/services/github.ts:210-219 | the loop's set is the distinct directory paths and its list is the listed files |
| `FileTree.GenerateFileTree` | src/services/github.ts:209-238 | the listing the loops build is the specified listing text, with the intended icon lookup |
| `FileTree.ListingText` | src/services/github.ts:226-235 | the listing is the `Directories:` heading, the directory lines, a blank line, `Key Files:` and the file lines |
| `FileTree.ShownDirsSpec` | src/services/github.ts:222-227 | the shown directories are at most twenty, sorted, distinct and taken from the tree; any directory left out sorts after every shown one; with at most twenty, all are shown |
| `FileTree.ShownFilesSpec` | src/services/github.ts:223-232 | the shown files are at most thirty, sorted and listed; any file left out sorts after every shown one; with at most thirty, all are shown |
| `FileTree.ReadFileTree` | src/services/github.ts:209-238 | splitting the listing at line breaks gives back exactly its lines |
| `Technologies.DetectTechnologies` | src/services/github.ts:254-297 | the result text is the specified report of the three lists |
| `Technologies.AddSection` | src/services/github.ts:292-294 | a section is appended to the result |
| `Technologies.DetectLanguages` | src/services/github.ts:263-270 | the languages list is the specified detection over the language rules |
| `Technologies.DetectFrameworks` | src/services/github.ts:273-280 | the frameworks list is the specified detection over the framework rules |
| `Technologies.DetectTools` | src/services/github.ts:283-289 | the tools list is the specified detection over the tool rules |
| `Technologies.PushIf` | src/services/github.ts:263-289 | a conditional push appends the label exactly when the test holds |
| `Technologies.DetectedIsFilter` | src/services/github.ts:263-289 | each list is the labels of the rules whose tests hold, in table order |
| `Technologies.DetectedMember` | src/services/github.ts:263-289 | a label is reported exactly when some rule with that label holds |
| `Technologies.DetectedDistinct` | src/services/github.ts:263-289 | no label is reported twice |
| `Technologies.TablesDistinct` | src/services/github.ts:263-289 | the three tables have distinct labels |
| `Technologies.DetectedHit` | src/services/github.ts:263-289 | a rule's label is reported iff its test holds |
| `Technologies.ReportEmpty` | src/services/github.ts:291-296 | with nothing detected the report is `No specific technologies detected` |
| `Technologies.DetectedEmpty` | src/services/github.ts:263-289 | a list is empty iff no rule of its table holds |
| `Technologies.NothingDetectedExactly` | src/services/github.ts:291-296 | the placeholder report appears exactly when all three lists are empty |
| `Technologies.MentionedListed` | src/services/github.ts:273-280 | a framework whose word occurs in the text is reported |
| `Technologies.FrameworksMention` | src/services/github.ts:273-280 | every framework rule is a case-sensitive substring test on the digest text |
| `RepoContent.MetadataLines` | src/services/github.ts:132-138 | the header has seven metadata lines and one blank line |
| `RepoContent.GetRepoContent` | src/services/github.ts:113-176 | the loop builds the specified result: the token error, the one fetch error, or the digest, whose listing uses the intended icon lookup |
| `RepoContent.BlocksAppend` | src/services/github.ts:150-165 | the blocks of two runs of files are the blocks of each, in order |
| `RepoContent.BlocksAgree` | src/services/github.ts:150-165 | the blocks depend only on the answers for the files that are read |
| `RepoContent.OnlySelectedFetched` | src/services/github.ts:141-169 | the digest depends only on the contents of the selected files |
| `RepoContent.BlocksInclude` | src/services/github.ts:156-160 | every fetched file's truncated body is in the blocks |
| `RepoContent.AnalysedIncludesFetched` | src/services/github.ts:129-168 | every fetched file's truncated body is in the text that detection reads |
| `RepoContent.FetchedFrameworkDetected` | src/services/github.ts:157-280 | a framework word in a fetched file's truncated body is reported as detected |
| `RepoContent.DigestFrame` | src/services/github.ts:131-169 | the digest starts with the metadata header and ends with the technologies heading and report |
| `RepoContent.JoinOneLine` | src/services/github.ts:138 | joining single-line topics with a single-line separator gives one line |
| `RepoContent.ReadHeader` | src/services/github.ts:132-138 | the header splits back into its metadata lines; the description and topics lines fall back to their placeholders on empty or missing values |
| `RepoContent.MetadataOneLine` | src/services/github.ts:132-138 | with single-line metadata, each header line is one line |
| `Quota.RemainingOf` | src/services/quota-manager.ts:64 | the remaining quota is never negative, is `limit - used` floored at 0 for a counted use, and is NaN exactly when the count is NaN |
| `Quota.StoredCountOfText` | src/services/quota-manager.ts:29-58 | a count written with `toString` is read back unchanged by the `parseInt` fallback, counts being unbounded integers |
| `Quota.UsableIffRemaining` | src/services/quota-manager.ts:50-64 | a model is usable exactly when it has some quota remaining |
| `Quota.ResetRestores` | src/services/quota-manager.ts:45-50 | after the reset time passes, every entry's count is zero and its reset moves to the next midnight; a model with a positive limit is usable again with its whole limit left, and one with a limit of 0 or less is not |
| `Quota.ZeroLimitNeverUsable` | src/services/quota-manager.ts:16-50 | a model with limit 0 is never usable, unless its stored count is negative |
| `Quota.RecordingKeepsExhausted` | src/services/quota-manager.ts:50-56 | recording a use on an exhausted model leaves it exhausted |
| `Quota.RecordedCount` | src/services/quota-manager.ts:53-56 | from a count of zero, `k` recorded uses (`used++` each) leave a count of `k` and the rest of the entry unchanged |
| `Quota.UsableUntilLimit` | src/services/quota-manager.ts:50-56 | from zero, a model is still usable after `k` recorded uses exactly when `k` is below its limit |
| `Quota.InitialQuotasShape` | src/services/quota-manager.ts:23-38 | each known model gets its limit, today's stored count or 0, and the same reset time |
| `Quota.ReloadRecorded` | src/services/quota-manager.ts:28-58 | a count recorded today is the count a new ledger starts from |
| `Quota.Pick` | src/services/quota-manager.ts:69-80 | the picked remaining quota is never negative |
| `Quota.PickIsBest` | src/services/quota-manager.ts:67-83 | with no usable model left the pick is `gemini-2.5-flash`; otherwise it is the first usable model with the greatest remaining quota |
| `Quota.ProNeverPicked` | src/services/quota-manager.ts:16-83 | `gemini-2.5-pro` is never recommended, unless its stored count is negative |
| `Quota.RefreshAllWellFormed` | src/services/quota-manager.ts:72-73 | refreshing every model keeps the ledger's shape and refreshes each entry |
| `Quota.Storage.constructor` | src/services/quota-manager.ts:28 | the store starts with the given items |
| `Quota.Storage.GetItem` | src/services/quota-manager.ts:28 | a read returns the stored item, or none |
| `Quota.Storage.SetItem` | src/services/quota-manager.ts:58 | a write sets that one key |
| `Quota.QuotaManager.constructor` | src/services/quota-manager.ts:19-21 | a new ledger holds the initial quotas read from the store |
| `Quota.QuotaManager.InitializeQuotas` | src/services/quota-manager.ts:23-38 | initialising overwrites the known models' entries with the stored counts |
| `Quota.QuotaManager.CanUseModel` | src/services/quota-manager.ts:40-51 | an unknown model is allowed; a known one is refreshed first and allowed iff its count is below its limit; nothing else changes |
| `Quota.QuotaManager.RecordUsage` | src/services/quota-manager.ts:53-60 | a known model's count goes up by one and is written under `quota_<model>_<day>`; an unknown model changes nothing; the limit is not checked |
| `Quota.QuotaManager.RemainingQuota` | src/services/quota-manager.ts:62-65 | an unknown model has unbounded quota; a known one has `max(0, limit - used)`, never negative |
| `Quota.QuotaManager.GetRecommendedModel` | src/services/quota-manager.ts:67-83 | every model is refreshed, and the result is the picked model |
| `Llm.CandidatesExactly` | src/services/llm.ts:18-22 | the candidates keep priority order, and a model is a candidate iff it is usable |
| `Llm.ProNeverTried` | src/services/llm.ts:18-22 | `gemini-2.5-pro` is never tried, unless its stored count is negative |
| `Llm.ModelTraceShape` | src/services/llm.ts:29-96 | one model is called at most three times, with attempt numbers counting up, and there is one wait between consecutive calls and none after the last |
| `Llm.WaitsFollowRateLimits` | src/services/llm.ts:84-92 | each wait follows a rate-limited failure of attempt 1 or 2 and lasts 5000 times that attempt |
| `Llm.WaitLengths` | src/services/llm.ts:15-86 | every wait is 5000 or 10000 ms |
| `Llm.RequestBound` | src/services/llm.ts:14-29 | at most three calls per candidate, and only to candidates |
| `Llm.ModelAnswerLast` | src/services/llm.ts:72-96 | a model's answer ends its run: all earlier calls failed |
| `Llm.AnswerIsLastRequest` | src/services/llm.ts:28-98 | an answer comes from the last call and every earlier call failed; with no answer, every call failed |
| `Llm.RetriedTwiceThenAnswered` | src/services/llm.ts:84-88 | two rate-limited failures and then an answer give three calls, waits of 5000 and 10000, and that answer |
| `Llm.CandidateStep` | src/services/llm.ts:18-22 | filtering one more model of the priority list appends it iff it is usable |
| `Llm.AvailableModels` | src/services/llm.ts:18-22 | every model is refreshed and the result is the candidate list |
| `Llm.TryModel` | src/services/llm.ts:29-97 | the attempt loop's calls, waits and answer are the specified trace of one model |
| `Llm.GenerateReadme` | src/services/llm.ts:13-102 | the result is the quota error with no calls, the first answer, or the all-failed error; calls and waits are the run's trace; only the answering model's count goes up, in the ledger and in the store |
| `LlmAlternatives.GenerateWithGoogle` | src/services/llm-alternatives.ts:36-72 | the loop's result is the specified ordered fallback |
| `LlmAlternatives.FirstAnswerOrLastError` | src/services/llm-alternatives.ts:42-68 | over distinct models, the answer is the first success and every earlier model failed; otherwise all failed and the last model's error is rethrown |
| `LlmAlternatives.GoogleOutcome` | src/services/llm-alternatives.ts:40-71 | there is an answer iff some model answers; otherwise the error is that of `gemini-2.5-pro` |
| `LlmAlternatives.GenerateReadmeWithFallback` | src/services/llm-alternatives.ts:20-34 | the method's result is the fallback applied to the Google outcome |
| `LlmAlternatives.TemplateOnlyOnRateLimit` | src/services/llm-alternatives.ts:20-67 | an answer is passed through; when all models failed, the template is returned iff the last error names `RATE_LIMIT_EXCEEDED`, and otherwise that error is rethrown |
| `LlmAlternatives.SkipSpace` | src/services/llm-alternatives.ts:78 | skipping white space stays within the text |
| `LlmAlternatives.QuoteFrom` | src/services/llm-alternatives.ts:78 | the search for the closing quote stays within the text |
| `LlmAlternatives.MatchAtExactly` | src/services/llm-alternatives.ts:78 | the scan matches at a position iff `"name":`, white space and a non-empty quoted run without quotes start there |
| `LlmAlternatives.FirstMatchIsFirst` | src/services/llm-alternatives.ts:78 | the scan returns the capture of the leftmost match, or nothing when no position matches |
| `LlmAlternatives.ProjectNameFound` | src/services/llm-alternatives.ts:78-79 | a name other than `Project` is the capture of a name field; with no name field the name is `Project`; a captured name is non-empty and has no quote |
| `LlmAlternatives.LeadingNameField` | src/services/llm-alternatives.ts:78-79 | a name field at the start of the text gives its value as the name |
| `LlmAlternatives.TechStackIsFilter` | src/services/llm-alternatives.ts:82-89 | the stack is the technologies whose substring tests hold |
| `LlmAlternatives.TechStackInOrder` | src/services/llm-alternatives.ts:82-89 | the stack is a subsequence of React, Node.js, TypeScript, and holds a technology iff its test holds |
| `LlmAlternatives.Bullets` | src/services/llm-alternatives.ts:97 | one `- tech` line per stack entry |
| `LlmAlternatives.TemplateFrame` | src/services/llm-alternatives.ts:91-116 | the template starts with `# ` and the project name and ends with the fixed install, usage, contributing and license sections |
| `LlmAlternatives.BulletsOneLine` | src/services/llm-alternatives.ts:97 | each bullet is a single line |
| `LlmAlternatives.TechnologiesLines` | src/services/llm-alternatives.ts:96-97 | the technologies section is one `- tech` line per stack entry, or `- JavaScript` alone |
| `RepoSelector.PresentLanguagesExactly` | src/components/RepoSelector.tsx:29 | a language is listed iff some repository has it as a non-empty string |
| `RepoSelector.LanguagesExactly` | src/components/RepoSelector.tsx:29 | the language list is distinct, holds exactly the truthy languages, and keeps first-occurrence order |
| `RepoSelector.FilteredExactly` | src/components/RepoSelector.tsx:31-36 | the filtered list is an order-preserving subsequence, and a repository is in it iff it matches the search on name or truthy description, case-insensitively, and the language filter |
| `RepoSelector.NoCriteriaKeepsAll` | src/components/RepoSelector.tsx:31-36 | an empty search and no language filter keep every repository |
| `RepoSelector.PageButtons` | src/components/RepoSelector.tsx:175-185 | one button per page, labelled 1 to the page count |
| `RepoSelector.ButtonsOpenPages` | src/components/RepoSelector.tsx:175-185 | every page button opens a non-empty page, and every non-empty page has a button |
| `RepoSelector.PageCountIsCeiling` | src/components/RepoSelector.tsx:173 | the page count is the ceiling of n/12, and pagination shows iff there are more than twelve repositories |
| `RepoSelector.PageWindow` | src/components/RepoSelector.tsx:26-40 | page p is the filtered list from (p-1)*12 to p*12, clipped to its length, and never holds more than twelve |
| `RepoSelector.PageNonEmpty` | src/components/RepoSelector.tsx:38-40 | a page is non-empty iff its number is at most the page count |
| `RepoSelector.PagesUpToPrefix` | src/components/RepoSelector.tsx:38-40 | the first k pages together are a prefix of the filtered list |
| `RepoSelector.PagesCoverAll` | src/components/RepoSelector.tsx:38-40 | all pages together are exactly the filtered list |
| `RepoSelector.LanguageColorDefault` | src/components/RepoSelector.tsx:57-73 | a mapped language gets its colour, and `bg-gray-500` is returned iff the language is unmapped |
| `RepoSelector.StrandedAfterSearch` | src/components/RepoSelector.tsx:25-93 | as written, a search from page 2 or later that leaves at most twelve matches shows no repository and no page buttons |
| `RepoSelector.StrandedAfterLanguage` | src/components/RepoSelector.tsx:25-100 | as written, choosing a language from page 2 or later that leaves at most twelve matches shows no repository and no page buttons |
| `RepoSelector.PageStaysInRange` | src/components/RepoSelector.tsx:25-100 | with the page reset on search and filter changes, every transition keeps the page in range, and a non-empty result is always visible |
| `JsText.UniqueFirstOccurrence` | src/components/RepoSelector.tsx:29 | a `Set` built from a list keeps first-occurrence order |
| `JsText.ParseIntOfIntToString` | src/services/quota-manager.ts:29-58 | `parseInt` reads back any unbounded integer written with `toString` |
| `JsText.SplitJoin` | src/services/llm-alternatives.ts:97 | splitting a join of separator-free parts gives back the parts |
| `JsText.Sort` | src/services/github.ts:222-223 | sorting yields a sorted permutation |

## Left out

- Network and SDK calls are parameters of the model. The GitHub requests become the repository metadata, the tree and a fetch function. The Gemini calls become a response function. The OAuth sign-in, `getUserRepos` paging requests, `updateReadme` and `commitReadme` are not modelled.
- `localStorage` is the `Quota.Storage` class, a map from keys to strings. The day's name (`toDateString`), the current time (`Date.now`) and the next midnight (`setHours(24, 0, 0, 0)`) are parameters, since calendar and time-zone arithmetic are not visible.
- Waiting (`setTimeout`) is not performed: the requested delays are returned as a list.
- `console` logging, the prompt texts and the sampling settings are not modelled. They go to foreign calls or have no effect on the result.
- The unused `config` object and `delay` helper of `src/services/llm-alternatives.ts:5-18` are not modelled, nor the unused `lines` split at line 77.
- `TextEncoder`, `btoa` and `atob` are browser built-ins and are not modelled. Only the manual UTF-8 loop that `encodeToBase64` falls back on is modelled, and Base64 is left out.
- A fetched file's contents are the text `atob` returns. The 2000-character cap counts its characters.
- `JsText.ToLower`: only ASCII letters are lowered. JavaScript's `toLowerCase` also lowers other scripts.
- `JsText.Sort`: sorts on characters. JavaScript's default sort compares UTF-16 code units, which orders differently only when characters above U+FFFF meet characters from U+E000 to U+FFFF.
- Regular expressions are written out as explicit predicates: `FileSelection.IsImportantFile` and the name scan `LlmAlternatives.MatchAt`. General regular-expression matching is not modelled.
- `RepoSelector.LanguageColor`: an inherited object member such as `constructor` used as a language name would, in the program, return a function. The model returns the grey default. Language names come from GitHub, which never sends such a name.
- `Quota.QuotaManager`: the ledger's `Map` iterates in insertion order. The model fixes that order to the table's order, which is the only order the constructor produces.
- The React rendering of the picker is not modelled: state hooks, `formatDate`, the markup, `handleRepoSelect` and `onSelect`. The page state and its transitions are modelled as values (`RepoSelector.View`).
- The other components and pages (`App.tsx`, `Generate.tsx`, `ReadmeGenerator.tsx`, `ReadmeViewer.tsx`, `Button.tsx`, `Navbar.tsx`) are presentation and are not part of this model.
- `FileTree.GenerateFileTree`: the listing uses the intended icon lookup `FileTree.FileIcon`. The program's object-literal lookup differs only for the extensions `constructor` and `__proto__` (see Findings and `FileTree.FileIconAsWrittenAgrees`), and for such a file the program prints an inherited value where the model prints the page icon.
- `RepoContent.GetRepoContent`: the digest's file listing comes from `FileTree.GenerateFileTree`, so it uses the intended icon lookup in the same way.
- `Quota.StoredCountOfText`: counts are unbounded integers, while JavaScript numbers are doubles. In the program, `toString` switches to exponent form from 10^21 (which `parseInt` reads back as 1), and integers above 2^53 are rounded. Daily counts stay in the tens, far below either bound.
- `JsText.ParseIntOfIntToString`: the round trip holds for unbounded integers. JavaScript's `toString` of a double uses exponent form from 10^21 and cannot represent every integer above 2^53.
- `FileTree.Icons`: the table holds the intended emoji. In the source file the emoji are stored double-encoded, which is an artefact of the file's encoding.

## Findings

| source | as written | input that shows it | evidently intended | confidence | as-written member | corrected member |
|---|---|---|---|---|---|---|
| src/components/RepoSelector.tsx:93 | changing the search term or the language filter keeps the current page number | on page 2 of 30 repositories, type a term that 5 repositories match: page 2 of 5 is empty, no page buttons appear and the "no repositories" notice stays hidden; choosing a language that 5 repositories have does the same (`RepoSelector.StrandedAfterLanguage`) | a new search or filter starts again at page 1 | not executed; high | `RepoSelector.StrandedAfterSearch` | `RepoSelector.PageStaysInRange` |
| src/services/github.ts:27-32 | every surrogate unit is taken as the start of a pair and consumes the next unit | the units D800 0041 (a lone high surrogate, then A) become U+10041, and the A is lost | a lone surrogate becomes U+FFFD and the next unit is kept, as the primary `TextEncoder` path does | not executed; high | `Utf8Fallback.LoneSurrogateSwallows` | `Utf8Fallback.ReplacingRoundTrip` |
| src/services/github.ts:250 | the icon table is an ordinary object literal, so inherited member names find a value | a file `notes.constructor` is listed behind `function Object() { [native code] }` | an unknown extension gets the page icon | not executed; high | `FileTree.ConstructorExtension` | `FileTree.FileIconOfDotted` |
