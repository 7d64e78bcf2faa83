/**
 * The `Link` response header reader the repository lister uses to follow
 * GitHub's pagination: the target of the first link whose parameters
 * contain `rel="next"` (section 3 of RFC 8288 gives the header's syntax).
 */
module LinkHeader {
  import opened Wrappers
  import opened JsText

  /**
   * What the reader produces: the next page's URL, `null`, or the TypeError
   * JavaScript raises when a comma-separated segment has no `;` (its second
   * destructured part is then `undefined`, and `includes` is called on it).
   */
  datatype NextPage = Next(url: string) | NoNext | TypeError

  const NextRel: string := "rel=\"next\""

  /** The parts of one comma-separated segment around its `;` characters. */
  function Parts(link: string): seq<string> {
    Split(link, ';')
  }

  /** A segment with no `;` at all. */
  predicate Malformed(link: string) {
    |Parts(link)| < 2
  }

  /** A segment whose first parameter part contains `rel="next"`. */
  predicate IsNextLink(link: string) {
    |Parts(link)| >= 2 && Includes(Parts(link)[1], NextRel)
  }

  /** The link target: the first part, trimmed, without its first and last characters. */
  function Target(link: string): string {
    Slice(Trim(Parts(link)[0]), 1, -1)
  }

  /** The loop over the segments, returning at the first one that matches. */
  function FirstNext(links: seq<string>): NextPage
    decreases |links|
  {
    if |links| == 0 then NoNext
    else if Malformed(links[0]) then TypeError
    else if IsNextLink(links[0]) then Next(Target(links[0]))
    else FirstNext(links[1..])
  }

  /** `getNextPageUrl(linkHeader)`: an absent or empty header has no next page. */
  function NextPageUrl(header: Option<string>): NextPage {
    match header
    case None => NoNext
    case Some(h) => if h == "" then NoNext else FirstNext(Split(h, ','))
  }

  // ---------------------------------------------------------------------------
  // The first matching segment, characterised by its index
  // ---------------------------------------------------------------------------

  /** Every segment before `i` is well formed and names some other relation. */
  predicate SkippedBefore(links: seq<string>, i: nat)
    requires i <= |links|
  {
    forall j :: 0 <= j < i ==> !Malformed(links[j]) && !IsNextLink(links[j])
  }

  /** The first next link, when every earlier segment is skipped, gives the result. */
  lemma {:induction false} FirstNextAt(links: seq<string>, i: nat)
    requires i < |links| && SkippedBefore(links, i) && IsNextLink(links[i])
    ensures FirstNext(links) == Next(Target(links[i]))
    decreases i
  {
    if i > 0 {
      assert !Malformed(links[0]) && !IsNextLink(links[0]);
      assert SkippedBefore(links[1..], i - 1) by {
        forall j | 0 <= j < i - 1 ensures !Malformed(links[1..][j]) && !IsNextLink(links[1..][j]) {
          assert links[1..][j] == links[j + 1];
        }
      }
      FirstNextAt(links[1..], i - 1);
    }
  }

  /** A URL result always comes from a next link that every earlier segment lets through. */
  lemma {:induction false} FirstNextIndex(links: seq<string>) returns (i: nat)
    requires FirstNext(links).Next?
    ensures i < |links| && SkippedBefore(links, i) && IsNextLink(links[i])
    ensures FirstNext(links).url == Target(links[i])
    decreases |links|
  {
    if IsNextLink(links[0]) && !Malformed(links[0]) {
      i := 0;
    } else {
      var k := FirstNextIndex(links[1..]);
      i := k + 1;
      forall j | 0 <= j < i ensures !Malformed(links[j]) && !IsNextLink(links[j]) {
        if j > 0 { assert links[j] == links[1..][j - 1]; }
      }
    }
  }

  /** `null` comes back exactly when every segment is well formed and none is a next link. */
  lemma {:induction false} FirstNextNone(links: seq<string>)
    ensures FirstNext(links) == NoNext <==> SkippedBefore(links, |links|)
    decreases |links|
  {
    if |links| > 0 {
      FirstNextNone(links[1..]);
      if SkippedBefore(links[1..], |links| - 1) && !Malformed(links[0]) && !IsNextLink(links[0]) {
        forall j | 0 <= j < |links| ensures !Malformed(links[j]) && !IsNextLink(links[j]) {
          if j > 0 { assert links[j] == links[1..][j - 1]; }
        }
      }
      if SkippedBefore(links, |links|) {
        assert SkippedBefore(links[1..], |links| - 1) by {
          forall j | 0 <= j < |links| - 1 ensures !Malformed(links[1..][j]) && !IsNextLink(links[1..][j]) {
            assert links[1..][j] == links[j + 1];
          }
        }
      }
    }
  }

  // ---------------------------------------------------------------------------
  // Headers in the shape GitHub sends them
  // ---------------------------------------------------------------------------

  datatype Rel = NextPage | PrevPage | FirstPage | LastPage

  function RelName(r: Rel): string {
    match r
    case NextPage => "next"
    case PrevPage => "prev"
    case FirstPage => "first"
    case LastPage => "last"
  }

  datatype Link = Link(url: string, rel: Rel)

  /** A URL that can stand inside a header without ending its segment or part. */
  predicate PlainUrl(url: string) {
    ',' !in url && ';' !in url
  }

  /** The parameter part of a rendered link: ` rel="<name>"`. */
  function RelPart(r: Rel): string {
    " rel=\"" + RelName(r) + "\""
  }

  /** One link as `<url>; rel="<name>"`, after a space when it is not the first. */
  function Segment(l: Link, first: bool): string {
    (if first then "" else " ") + "<" + l.url + ">;" + RelPart(l.rel)
  }

  function Segments(links: seq<Link>): (segs: seq<string>)
    ensures |segs| == |links|
  {
    seq(|links|, i requires 0 <= i < |links| => Segment(links[i], i == 0))
  }

  /** The header text for a list of links, comma separated. */
  function Render(links: seq<Link>): string {
    Join(Segments(links), ",")
  }

  /** The first link of relation `next`, if there is one. */
  function FirstNextLink(links: seq<Link>): Option<string>
    decreases |links|
  {
    if |links| == 0 then None
    else if links[0].rel == NextPage then Some(links[0].url)
    else FirstNextLink(links[1..])
  }

  function AsNextPage(url: Option<string>): NextPage {
    match url
    case None => NoNext
    case Some(u) => Next(u)
  }

  lemma RelPartIsNext(r: Rel)
    ensures Includes(RelPart(r), NextRel) <==> r == NextPage
  {
    var p := RelPart(r);
    var name := RelName(r);
    assert |p| == |name| + 7;
    assert p[5] == '"' && p[|p| - 1] == '"';
    assert forall k :: 6 <= k < |p| - 1 ==> p[k] == name[k - 6];
    assert '"' !in name;
    if r == NextPage {
      assert p[1..1 + |NextRel|] == NextRel;
      IncludesAt(p, NextRel, 1);
    } else {
      forall i: nat ensures !OccursAt(p, NextRel, i) {
        if i + |NextRel| > |p| {
        } else if i == 1 {
          assert p[i..i + |NextRel|][5] == name[0] != NextRel[5];
        } else {
          assert p[i..i + |NextRel|][4] == p[i + 4] != NextRel[4];
        }
      }
      IncludesNone(p, NextRel);
    }
  }

  lemma TrimBracketed(pad: string, url: string)
    requires forall k :: 0 <= k < |pad| ==> pad[k] == ' '
    ensures Trim(pad + "<" + url + ">") == "<" + url + ">"
  {
    var b := "<" + url + ">";
    assert pad + "<" + url + ">" == pad + b;
    assert b[0] == '<' && b[|b| - 1] == '>';
    TrimStartOfPadded(pad, b);
    TrimEndOfPlain(b);
  }

  lemma SegmentReads(l: Link, first: bool)
    requires PlainUrl(l.url)
    ensures !Malformed(Segment(l, first))
    ensures IsNextLink(Segment(l, first)) <==> l.rel == NextPage
    ensures Target(Segment(l, first)) == l.url
  {
    var pad := if first then "" else " ";
    var head := pad + "<" + l.url + ">";
    var seg := Segment(l, first);
    assert seg == Join([head, RelPart(l.rel)], ";");
    assert ';' !in RelPart(l.rel);
    assert ';' !in head;
    SplitJoin([head, RelPart(l.rel)], ';');
    assert Parts(seg) == [head, RelPart(l.rel)];
    RelPartIsNext(l.rel);
    TrimBracketed(pad, l.url);
    var b := "<" + l.url + ">";
    assert Trim(Parts(seg)[0]) == b;
    assert Slice(b, 1, -1) == b[1..|b| - 1];
    assert b[1..|b| - 1] == l.url;
  }

  lemma {:induction false} FirstNextOfSegments(links: seq<Link>, from: nat)
    requires from <= |links|
    requires forall k :: 0 <= k < |links| ==> PlainUrl(links[k].url)
    ensures FirstNext(Segments(links)[from..]) == AsNextPage(FirstNextLink(links[from..]))
    decreases |links| - from
  {
    if from < |links| {
      var segs := Segments(links)[from..];
      var rest := links[from..];
      var l := links[from];
      SegmentReads(l, from == 0);
      assert segs[0] == Segment(l, from == 0);
      assert segs[1..] == Segments(links)[from + 1..];
      assert rest[0] == l && rest[1..] == links[from + 1..];
      FirstNextOfSegments(links, from + 1);
      FirstNextCons(segs);
    }
  }

  lemma FirstNextCons(links: seq<string>)
    requires |links| > 0 && !Malformed(links[0])
    ensures FirstNext(links) == if IsNextLink(links[0]) then Next(Target(links[0])) else FirstNext(links[1..])
  {
  }

  lemma SegmentHasNoComma(l: Link, first: bool)
    requires PlainUrl(l.url)
    ensures ',' !in Segment(l, first)
  {
    assert ',' !in RelName(l.rel);
  }

  /** A rendered header splits at its commas into the rendered segments. */
  lemma SplitRender(links: seq<Link>)
    requires |links| > 0
    requires forall k :: 0 <= k < |links| ==> PlainUrl(links[k].url)
    ensures Split(Render(links), ',') == Segments(links)
    ensures Render(links) != ""
  {
    var segs := Segments(links);
    forall k | 0 <= k < |segs| ensures ',' !in segs[k] {
      SegmentHasNoComma(links[k], k == 0);
    }
    SplitJoin(segs, ',');
    assert |segs[0]| > 0;
  }

  /**
   * Reading a rendered header gives back the URL of its first `next` link,
   * or `null` when it has none.
   */
  lemma NextPageUrlOfRender(links: seq<Link>)
    requires |links| > 0
    requires forall k :: 0 <= k < |links| ==> PlainUrl(links[k].url)
    ensures NextPageUrl(Some(Render(links))) == AsNextPage(FirstNextLink(links))
  {
    SplitRender(links);
    FirstNextOfSegments(links, 0);
    assert Segments(links)[0..] == Segments(links);
    assert links[0..] == links;
  }

  /** A non-empty header without any `;` makes the reader throw. */
  lemma MissingParametersThrow(h: string)
    requires h != "" && ';' !in h
    ensures NextPageUrl(Some(h)) == TypeError
  {
    var links := Split(h, ',');
    SplitKeepsOut(h, ',', ';');
    SplitJoin([links[0]], ';');
    assert Join([links[0]], ";") == links[0];
  }
}
