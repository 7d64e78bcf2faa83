/**
 * The repository picker: the user's repositories narrowed by a search term
 * and a language, shown twelve to a page, with one page button per page
 * when there is more than one.  The list of languages offered by the
 * language filter and the colour badge of each language are derived from
 * the repositories.  Rendering, the date format and the React state hooks
 * are not modelled; the three pieces of state the hooks hold are the
 * fields of `View`.
 */
module RepoSelector {
  import opened Wrappers
  import opened JsText

  /** A repository as listed by the GitHub API; description and language may be null. */
  datatype Repo = Repo(id: int, fullName: string, description: Option<string>, language: Option<string>,
                       stars: nat, forks: nat, updatedAt: string, isPrivate: bool)

  /** A string that is neither null nor empty. */
  predicate Truthy(s: Option<string>) {
    s.Some? && |s.value| > 0
  }

  // ---------------------------------------------------------------------------
  // The language list
  // ---------------------------------------------------------------------------

  /** `repos.map(repo => repo.language).filter(Boolean)` */
  function PresentLanguages(repos: seq<Repo>): seq<string>
    decreases |repos|
  {
    if |repos| == 0 then []
    else (if Truthy(repos[0].language) then [repos[0].language.value] else []) + PresentLanguages(repos[1..])
  }

  /** `Array.from(new Set(...))` of the present languages. */
  function Languages(repos: seq<Repo>): seq<string> {
    Unique(PresentLanguages(repos))
  }

  lemma {:induction false} PresentLanguagesExactly(repos: seq<Repo>, l: string)
    ensures l in PresentLanguages(repos) <==> exists k :: 0 <= k < |repos| && repos[k].language == Some(l) && l != ""
    decreases |repos|
  {
    if |repos| > 0 {
      PresentLanguagesExactly(repos[1..], l);
      if exists k :: 0 <= k < |repos| && repos[k].language == Some(l) && l != "" {
        var k :| 0 <= k < |repos| && repos[k].language == Some(l) && l != "";
        if k > 0 {
          assert repos[1..][k - 1] == repos[k];
        }
      }
    }
  }

  /**
   * The filter offers each non-empty language of some repository, once, in
   * the order in which the languages first occur.
   */
  lemma LanguagesExactly(repos: seq<Repo>, l: string)
    ensures Distinct(Languages(repos))
    ensures l in Languages(repos) <==> exists k :: 0 <= k < |repos| && repos[k].language == Some(l) && l != ""
    ensures forall i, j :: 0 <= i < j < |Languages(repos)| ==>
      IndexOf(PresentLanguages(repos), Languages(repos)[i]) < IndexOf(PresentLanguages(repos), Languages(repos)[j])
  {
    PresentLanguagesExactly(repos, l);
    UniqueFirstOccurrence(PresentLanguages(repos));
  }

  // ---------------------------------------------------------------------------
  // Search and language filter
  // ---------------------------------------------------------------------------

  /** The search term occurs, ignoring case, in the full name or in a non-empty description. */
  predicate MatchesSearch(repo: Repo, term: string) {
    || Includes(ToLower(repo.fullName), ToLower(term))
    || (Truthy(repo.description) && Includes(ToLower(repo.description.value), ToLower(term)))
  }

  /** No language filter, or the repository's language is the one chosen. */
  predicate MatchesLanguage(repo: Repo, languageFilter: string) {
    languageFilter == "" || repo.language == Some(languageFilter)
  }

  function Matches(term: string, languageFilter: string): Repo -> bool {
    repo => MatchesSearch(repo, term) && MatchesLanguage(repo, languageFilter)
  }

  /** `filteredRepos` */
  function Filtered(repos: seq<Repo>, term: string, languageFilter: string): seq<Repo> {
    Filter(repos, Matches(term, languageFilter))
  }

  /** The filtered list keeps the order of `repos` and holds exactly the repositories that match both tests. */
  lemma FilteredExactly(repos: seq<Repo>, term: string, languageFilter: string, repo: Repo)
    ensures Subsequence(Filtered(repos, term, languageFilter), repos)
    ensures repo in Filtered(repos, term, languageFilter) <==>
      repo in repos && MatchesSearch(repo, term) && MatchesLanguage(repo, languageFilter)
  {
    FilterSubsequence(repos, Matches(term, languageFilter));
    if repo in repos && MatchesSearch(repo, term) && MatchesLanguage(repo, languageFilter) {
      FilterKeeps(repos, Matches(term, languageFilter), repo);
    }
  }

  /** An empty search and no language filter show every repository. */
  lemma NoCriteriaKeepsAll(repos: seq<Repo>)
    ensures Filtered(repos, "", "") == repos
  {
    forall k | 0 <= k < |repos| ensures Matches("", "")(repos[k]) {
      IncludesAt(ToLower(repos[k].fullName), "", 0);
    }
    FilterAll(repos, Matches("", ""));
  }

  // ---------------------------------------------------------------------------
  // Pages
  // ---------------------------------------------------------------------------

  const ReposPerPage: nat := 12

  /** `filteredRepos.slice(indexOfFirstRepo, indexOfLastRepo)` for `currentPage` */
  function CurrentRepos(filtered: seq<Repo>, currentPage: int): seq<Repo> {
    var indexOfLastRepo := currentPage * ReposPerPage;
    var indexOfFirstRepo := indexOfLastRepo - ReposPerPage;
    Slice(filtered, indexOfFirstRepo, indexOfLastRepo)
  }

  /** `Math.ceil(n / reposPerPage)` on a count. */
  function PageCount(n: nat): nat {
    (n + ReposPerPage - 1) / ReposPerPage
  }

  /** The page buttons are shown when there is more than one page. */
  predicate ShowPagination(n: nat) {
    PageCount(n) > 1
  }

  /** The labels of the page buttons. */
  function PageButtons(n: nat): (labels: seq<int>)
    ensures |labels| == PageCount(n)
    ensures forall i :: 0 <= i < |labels| ==> labels[i] == i + 1
  {
    seq(PageCount(n), i => i + 1)
  }

  /** The page count is the least number of twelve-entry pages that hold `n` entries. */
  lemma PageCountIsCeiling(n: nat)
    ensures PageCount(n) * ReposPerPage >= n
    ensures PageCount(n) > 0 ==> (PageCount(n) - 1) * ReposPerPage < n
    ensures PageCount(n) == 0 <==> n == 0
    ensures ShowPagination(n) <==> n > ReposPerPage
  {
  }

  function Min(a: int, b: int): int {
    if a < b then a else b
  }

  /** Page `p` holds the entries from `12 * (p - 1)` up to `12 * p`, so at most twelve. */
  lemma PageWindow(filtered: seq<Repo>, page: int)
    requires page >= 1
    ensures var lo := Min((page - 1) * ReposPerPage, |filtered|);
      var hi := Min(page * ReposPerPage, |filtered|);
      CurrentRepos(filtered, page) == filtered[lo..hi]
    ensures |CurrentRepos(filtered, page)| <= ReposPerPage
  {
  }

  /** A page is non-empty exactly when its number is one of the page buttons. */
  lemma PageNonEmpty(filtered: seq<Repo>, page: int)
    requires page >= 1
    ensures |CurrentRepos(filtered, page)| > 0 <==> page <= PageCount(|filtered|)
  {
    PageWindow(filtered, page);
    PageCountIsCeiling(|filtered|);
  }

  /** Pages `1..k` one after the other. */
  function PagesUpTo(filtered: seq<Repo>, k: nat): seq<Repo>
    decreases k
  {
    if k == 0 then [] else PagesUpTo(filtered, k - 1) + CurrentRepos(filtered, k)
  }

  lemma {:induction false} PagesUpToPrefix(filtered: seq<Repo>, k: nat)
    ensures PagesUpTo(filtered, k) == filtered[..Min(k * ReposPerPage, |filtered|)]
    decreases k
  {
    if k > 0 {
      PagesUpToPrefix(filtered, k - 1);
      PageWindow(filtered, k);
      var a := Min((k - 1) * ReposPerPage, |filtered|);
      var b := Min(k * ReposPerPage, |filtered|);
      assert filtered[..a] + filtered[a..b] == filtered[..b];
    }
  }

  /** A page button opens a non-empty page, and every non-empty page has its button. */
  lemma ButtonsOpenPages(filtered: seq<Repo>)
    ensures forall l :: l in PageButtons(|filtered|) ==> |CurrentRepos(filtered, l)| > 0
    ensures forall p :: p >= 1 && |CurrentRepos(filtered, p)| > 0 ==> p in PageButtons(|filtered|)
  {
    var buttons := PageButtons(|filtered|);
    forall l | l in buttons
      ensures |CurrentRepos(filtered, l)| > 0
    {
      var i :| 0 <= i < |buttons| && buttons[i] == l;
      PageNonEmpty(filtered, l);
    }
    forall p | p >= 1 && |CurrentRepos(filtered, p)| > 0
      ensures p in buttons
    {
      PageNonEmpty(filtered, p);
      assert buttons[p - 1] == p;
    }
  }

  /** Read one after the other, the pages list every filtered repository once, in order. */
  lemma PagesCoverAll(filtered: seq<Repo>)
    ensures PagesUpTo(filtered, PageCount(|filtered|)) == filtered
  {
    PagesUpToPrefix(filtered, PageCount(|filtered|));
    PageCountIsCeiling(|filtered|);
  }

  // ---------------------------------------------------------------------------
  // Language badges
  // ---------------------------------------------------------------------------

  const Colors: map<string, string> := map[
    "JavaScript" := "bg-yellow-500", "TypeScript" := "bg-blue-500", "Python" := "bg-green-500",
    "Java" := "bg-orange-500", "Go" := "bg-cyan-500", "Rust" := "bg-orange-600",
    "PHP" := "bg-purple-500", "Ruby" := "bg-red-500", "C++" := "bg-blue-600",
    "C#" := "bg-purple-600", "HTML" := "bg-orange-400", "CSS" := "bg-blue-400"]

  const DefaultColor: string := "bg-gray-500"

  /** `getLanguageColor(language)`: `colors[language] || 'bg-gray-500'`. */
  function LanguageColor(language: string): string {
    if language in Colors && |Colors[language]| > 0 then Colors[language] else DefaultColor
  }

  /** A mapped language gets its own colour, and the grey default is given exactly to the unmapped ones. */
  lemma LanguageColorDefault(language: string)
    ensures language in Colors ==> LanguageColor(language) == Colors[language]
    ensures LanguageColor(language) == DefaultColor <==> language !in Colors
  {
    if language in Colors {
      assert Colors[language] != DefaultColor && |Colors[language]| > 0 by {
        assert language in {"JavaScript", "TypeScript", "Python", "Java", "Go", "Rust", "PHP", "Ruby", "C++", "C#", "HTML", "CSS"};
      }
    }
  }

  // ---------------------------------------------------------------------------
  // The page across a change of search or filter
  // ---------------------------------------------------------------------------

  /** The state the component's hooks hold. */
  datatype View = View(searchTerm: string, languageFilter: string, currentPage: int)

  const InitialView: View := View("", "", 1)

  /** The repositories on screen. */
  function Shown(repos: seq<Repo>, v: View): seq<Repo> {
    CurrentRepos(Filtered(repos, v.searchTerm, v.languageFilter), v.currentPage)
  }

  /** The open page is one of the page buttons, or page 1 when there are none. */
  predicate PageInRange(repos: seq<Repo>, v: View) {
    var n := |Filtered(repos, v.searchTerm, v.languageFilter)|;
    1 <= v.currentPage && (v.currentPage == 1 || v.currentPage <= PageCount(n))
  }

  /** Typing in the search box as written: only the term changes. */
  function OnSearchAsWritten(v: View, term: string): View {
    v.(searchTerm := term)
  }

  /** Choosing a language as written: only the filter changes. */
  function OnLanguageAsWritten(v: View, languageFilter: string): View {
    v.(languageFilter := languageFilter)
  }

  /** `paginate(i + 1)` from button `i`. */
  function Paginate(v: View, pageNumber: int): View {
    v.(currentPage := pageNumber)
  }

  /**
   * As written, narrowing the search while on page 2 or later to at most twelve
   * matches leaves the screen empty although repositories match, and shows no
   * page button to go back with.
   */
  lemma StrandedAfterSearch(repos: seq<Repo>, v: View, term: string)
    requires v.currentPage >= 2
    requires 0 < |Filtered(repos, term, v.languageFilter)| <= ReposPerPage
    ensures |Filtered(repos, OnSearchAsWritten(v, term).searchTerm, v.languageFilter)| > 0
    ensures Shown(repos, OnSearchAsWritten(v, term)) == []
    ensures !ShowPagination(|Filtered(repos, term, v.languageFilter)|)
    ensures !PageInRange(repos, OnSearchAsWritten(v, term))
  {
    PageNonEmpty(Filtered(repos, term, v.languageFilter), v.currentPage);
  }

  /**
   * As written, choosing a language while on page 2 or later that leaves at
   * most twelve matches strands the screen in the same way.
   */
  lemma StrandedAfterLanguage(repos: seq<Repo>, v: View, languageFilter: string)
    requires v.currentPage >= 2
    requires 0 < |Filtered(repos, v.searchTerm, languageFilter)| <= ReposPerPage
    ensures |Filtered(repos, v.searchTerm, OnLanguageAsWritten(v, languageFilter).languageFilter)| > 0
    ensures Shown(repos, OnLanguageAsWritten(v, languageFilter)) == []
    ensures !ShowPagination(|Filtered(repos, v.searchTerm, languageFilter)|)
    ensures !PageInRange(repos, OnLanguageAsWritten(v, languageFilter))
  {
    PageNonEmpty(Filtered(repos, v.searchTerm, languageFilter), v.currentPage);
  }

  /** Typing in the search box, going back to the first page. */
  function OnSearch(v: View, term: string): View {
    v.(searchTerm := term, currentPage := 1)
  }

  /** Choosing a language, going back to the first page. */
  function OnLanguage(v: View, languageFilter: string): View {
    v.(languageFilter := languageFilter, currentPage := 1)
  }

  /**
   * With the page reset on every change of criteria, the open page stays a
   * valid one across every change, and whenever something matches, something
   * is on screen.
   */
  lemma PageStaysInRange(repos: seq<Repo>, v: View, term: string, languageFilter: string, button: nat)
    requires PageInRange(repos, v)
    requires button < PageCount(|Filtered(repos, v.searchTerm, v.languageFilter)|)
    ensures PageInRange(repos, InitialView)
    ensures PageInRange(repos, OnSearch(v, term))
    ensures PageInRange(repos, OnLanguage(v, languageFilter))
    ensures PageInRange(repos, Paginate(v, button + 1))
    ensures |Filtered(repos, v.searchTerm, v.languageFilter)| > 0 ==> |Shown(repos, v)| > 0
  {
    var filtered := Filtered(repos, v.searchTerm, v.languageFilter);
    if |filtered| > 0 {
      PageCountIsCeiling(|filtered|);
      PageNonEmpty(filtered, v.currentPage);
    }
  }
}
