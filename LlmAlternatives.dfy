/**
 * The alternative generator: the Gemini models are asked once each in order
 * and the first answer wins; if the last model fails too its error is
 * rethrown.  A rethrown rate-limit error (`RATE_LIMIT_EXCEEDED`) switches to
 * a README assembled from a fixed template, filled in with the project name
 * found in the repository text and a technology stack guessed from it.
 *
 * As in the main generator, the remote models are a parameter: `respond(m)`
 * is what model `m` yields.  A thrown error is represented by its message,
 * which may be missing.
 */
module LlmAlternatives {
  import opened Wrappers
  import opened JsText
  import opened Llm

  // ---------------------------------------------------------------------------
  // generateWithGoogle
  // ---------------------------------------------------------------------------

  const GoogleModels: seq<string> := ["gemini-3-flash-preview", "gemini-2.5-flash", "gemini-2.5-pro"]

  const AllGoogleFailed: string := "All Google models failed"

  /** The loop of `generateWithGoogle` from the model at index `i` on. */
  function GoogleFrom(models: seq<string>, respond: string -> Outcome, i: nat): Result<string, Option<string>>
    decreases |models| - i
  {
    if i >= |models| then Err(Some(AllGoogleFailed))
    else match respond(models[i])
      case Success(text) => Ok(text)
      case Failure(message) =>
        if IndexOf(models, models[i]) == |models| - 1 then Err(message)
        else GoogleFrom(models, respond, i + 1)
  }

  /** `generateWithGoogle(repoContent)` */
  method GenerateWithGoogle(respond: string -> Outcome) returns (r: Result<string, Option<string>>)
    ensures r == GoogleFrom(GoogleModels, respond, 0)
  {
    for i := 0 to |GoogleModels|
      invariant GoogleFrom(GoogleModels, respond, 0) == GoogleFrom(GoogleModels, respond, i)
    {
      var modelName := GoogleModels[i];
      match respond(modelName)
      case Success(text) =>
        return Ok(text);
      case Failure(message) =>
        if IndexOf(GoogleModels, modelName) == |GoogleModels| - 1 {
          return Err(message);
        }
    }
    return Err(Some(AllGoogleFailed));
  }

  /**
   * Over distinct models: the answer of the first model that answers, or, when
   * all fail, the error of the last one; the final "All Google models failed"
   * is never reached.
   */
  lemma {:induction false} FirstAnswerOrLastError(models: seq<string>, respond: string -> Outcome, i: nat)
    requires Distinct(models) && i < |models|
    ensures var r := GoogleFrom(models, respond, i);
      && (r.Ok? ==> exists k :: i <= k < |models| && respond(models[k]) == Success(r.value) &&
                      forall j :: i <= j < k ==> respond(models[j]).Failure?)
      && (r.Err? ==> (forall k :: i <= k < |models| ==> respond(models[k]).Failure?) &&
                      r.error == respond(models[|models| - 1]).message)
    decreases |models| - i
  {
    assert IndexOf(models, models[i]) == i;
    if respond(models[i]).Failure? && i < |models| - 1 {
      FirstAnswerOrLastError(models, respond, i + 1);
    }
  }

  /** For the three Gemini models: answered iff one of them answers, and the Pro model's error otherwise. */
  lemma GoogleOutcome(respond: string -> Outcome)
    ensures var r := GoogleFrom(GoogleModels, respond, 0);
      && (r.Ok? <==> exists k :: 0 <= k < |GoogleModels| && respond(GoogleModels[k]).Success?)
      && (r.Err? ==> r.error == respond("gemini-2.5-pro").message)
  {
    FirstAnswerOrLastError(GoogleModels, respond, 0);
  }

  // ---------------------------------------------------------------------------
  // generateReadmeWithFallback
  // ---------------------------------------------------------------------------

  /** The error test of the fallback: the message mentions `RATE_LIMIT_EXCEEDED`. */
  predicate RateLimitMessage(message: Option<string>) {
    message.Some? && Includes(message.value, "RATE_LIMIT_EXCEEDED")
  }

  /** The `catch` of `generateReadmeWithFallback` applied to the outcome of `generateWithGoogle`. */
  function WithFallback(content: string, google: Result<string, Option<string>>): (r: Result<string, Option<string>>) {
    if google.Ok? then google
    else if RateLimitMessage(google.error) then Ok(Template(content))
    else google
  }

  /** `generateReadmeWithFallback(repoContent)` */
  method GenerateReadmeWithFallback(content: string, respond: string -> Outcome) returns (r: Result<string, Option<string>>)
    ensures r == WithFallback(content, GoogleFrom(GoogleModels, respond, 0))
  {
    var google := GenerateWithGoogle(respond);
    if google.Ok? {
      return google;
    }
    if RateLimitMessage(google.error) {
      return Ok(Template(content));
    }
    return google;
  }

  /** Every Gemini model failed. */
  predicate AllModelsFailed(respond: string -> Outcome) {
    forall k :: 0 <= k < |GoogleModels| ==> respond(GoogleModels[k]).Failure?
  }

  /**
   * An answer is returned as it is; when every model failed, the template is
   * used exactly when the last model's message names the rate limit, and
   * otherwise that error is rethrown unchanged.
   */
  lemma TemplateOnlyOnRateLimit(content: string, respond: string -> Outcome)
    ensures var r := WithFallback(content, GoogleFrom(GoogleModels, respond, 0));
      && (!AllModelsFailed(respond) ==> r.Ok? && r == GoogleFrom(GoogleModels, respond, 0))
      && (AllModelsFailed(respond) && RateLimitMessage(respond("gemini-2.5-pro").message) ==> r == Ok(Template(content)))
      && (AllModelsFailed(respond) && !RateLimitMessage(respond("gemini-2.5-pro").message) ==>
            r == Err(respond("gemini-2.5-pro").message))
  {
    FirstAnswerOrLastError(GoogleModels, respond, 0);
  }

  // ---------------------------------------------------------------------------
  // generateWithTemplate: the project name
  // ---------------------------------------------------------------------------

  const NameKey: string := "\"name\":"

  /** The end of the run of white space (`\s*`) starting at `j`. */
  function SkipSpace(s: string, j: nat): (k: nat)
    requires j <= |s|
    ensures j <= k <= |s|
    decreases |s| - j
  {
    if j < |s| && IsWhiteSpace(s[j]) then SkipSpace(s, j + 1) else j
  }

  /** The first double quote at or after `j`, or `|s|`. */
  function QuoteFrom(s: string, j: nat): (k: nat)
    requires j <= |s|
    ensures j <= k <= |s|
    decreases |s| - j
  {
    if j < |s| && s[j] != '"' then QuoteFrom(s, j + 1) else j
  }

  /** The pattern `"name":\s*"([^"]+)"` tried at index `i`: the captured name if it matches there. */
  function MatchAt(s: string, i: nat): Option<string>
    requires i <= |s|
  {
    if !OccursAt(s, NameKey, i) then None
    else
      var j := SkipSpace(s, i + |NameKey|);
      if j < |s| && s[j] == '"' then
        var k := QuoteFrom(s, j + 1);
        if k < |s| && k > j + 1 then Some(s[j + 1..k]) else None
      else None
  }

  /** The first match of the pattern at or after `i`. */
  function FirstMatch(s: string, i: nat): Option<string>
    requires i <= |s|
    decreases |s| - i
  {
    var m := MatchAt(s, i);
    if m.Some? || i == |s| then m else FirstMatch(s, i + 1)
  }

  /** `packageJsonMatch ? packageJsonMatch[1] : 'Project'` */
  function ProjectName(s: string): string {
    match FirstMatch(s, 0)
    case Some(name) => name
    case None => "Project"
  }

  /** `"name":`, then white space `w`, then the value `v` in double quotes, occurring at index `i`. */
  predicate NameField(s: string, i: nat, w: string, v: string) {
    && OccursAt(s, NameKey + w + "\"" + v + "\"", i)
    && (forall c :: c in w ==> IsWhiteSpace(c))
    && |v| > 0 && '"' !in v
  }

  lemma {:induction false} SkipSpaceTo(s: string, j: nat, k: nat)
    requires j <= k < |s| && !IsWhiteSpace(s[k])
    requires forall m :: j <= m < k ==> IsWhiteSpace(s[m])
    ensures SkipSpace(s, j) == k
    decreases k - j
  {
    if j < k {
      SkipSpaceTo(s, j + 1, k);
    }
  }

  lemma {:induction false} SkipSpaceRun(s: string, j: nat)
    requires j <= |s|
    ensures forall m :: j <= m < SkipSpace(s, j) ==> IsWhiteSpace(s[m])
    ensures SkipSpace(s, j) < |s| ==> !IsWhiteSpace(s[SkipSpace(s, j)])
    decreases |s| - j
  {
    if j < |s| && IsWhiteSpace(s[j]) {
      SkipSpaceRun(s, j + 1);
    }
  }

  lemma {:induction false} QuoteFromTo(s: string, j: nat, k: nat)
    requires j <= k < |s| && s[k] == '"'
    requires forall m :: j <= m < k ==> s[m] != '"'
    ensures QuoteFrom(s, j) == k
    decreases k - j
  {
    if j < k {
      QuoteFromTo(s, j + 1, k);
    }
  }

  lemma {:induction false} QuoteFromRun(s: string, j: nat)
    requires j <= |s|
    ensures forall m :: j <= m < QuoteFrom(s, j) ==> s[m] != '"'
    ensures QuoteFrom(s, j) < |s| ==> s[QuoteFrom(s, j)] == '"'
    decreases |s| - j
  {
    if j < |s| && s[j] != '"' {
      QuoteFromRun(s, j + 1);
    }
  }

  lemma SliceInFive(s: string, a: nat, b: nat, c: nat, d: nat, e: nat, f: nat)
    requires a <= b <= c <= d <= e <= f <= |s|
    ensures s[a..f] == s[a..b] + s[b..c] + s[c..d] + s[d..e] + s[e..f]
  {
    assert s[a..c] == s[a..b] + s[b..c];
    assert s[a..d] == s[a..c] + s[c..d];
    assert s[a..e] == s[a..d] + s[d..e];
    assert s[a..f] == s[a..e] + s[e..f];
  }

  /** The pieces of a name field, laid side by side, make up the field. */
  lemma FieldOccurs(s: string, i: nat, j: nat, k: nat, w: string, v: string)
    requires i + |NameKey| <= j < k < |s|
    requires OccursAt(s, NameKey, i) && s[i + |NameKey|..j] == w && s[j] == '"' && s[j + 1..k] == v && s[k] == '"'
    ensures OccursAt(s, NameKey + w + "\"" + v + "\"", i)
  {
    SliceInFive(s, i, i + |NameKey|, j, j + 1, k, k + 1);
    assert s[j..j + 1] == "\"" && s[k..k + 1] == "\"";
  }

  /** A match at `i` is a name field at `i` whose value is the capture. */
  lemma MatchIsField(s: string, i: nat, v: string)
    requires i <= |s| && MatchAt(s, i) == Some(v)
    ensures exists w :: NameField(s, i, w, v)
  {
    var j := SkipSpace(s, i + |NameKey|);
    var k := QuoteFrom(s, j + 1);
    SkipSpaceRun(s, i + |NameKey|);
    QuoteFromRun(s, j + 1);
    var w := s[i + |NameKey|..j];
    assert v == s[j + 1..k];
    FieldOccurs(s, i, j, k, w, v);
    forall c | c in w ensures IsWhiteSpace(c) {
      var m :| 0 <= m < |w| && w[m] == c;
      assert s[i + |NameKey| + m] == c;
    }
    forall m | 0 <= m < |v| ensures v[m] != '"' {
      assert v[m] == s[j + 1 + m];
    }
    assert NameField(s, i, w, v);
  }

  /** A slice of an occurrence of `t` in `s` is the same slice of `t`. */
  lemma SliceOfOccurrence(s: string, t: string, i: nat, a: nat, b: nat)
    requires OccursAt(s, t, i) && a <= b <= |t|
    ensures s[i + a..i + b] == t[a..b]
  {
    forall x | 0 <= x < b - a ensures s[i + a..i + b][x] == t[a..b][x] {
      assert s[i + a + x] == s[i..i + |t|][a + x];
    }
  }

  /** The pieces of a name field occurring at `i`, read back out of `s`. */
  lemma FieldPieces(s: string, i: nat, w: string, v: string)
    requires OccursAt(s, NameKey + w + "\"" + v + "\"", i)
    ensures var j := i + |NameKey| + |w|;
      && OccursAt(s, NameKey, i)
      && s[i + |NameKey|..j] == w
      && s[j] == '"'
      && s[j + 1..j + 1 + |v|] == v
      && s[j + 1 + |v|] == '"'
  {
    var field := NameKey + w + "\"" + v + "\"";
    var n, j := |NameKey|, |NameKey| + |w|;
    assert field[..n] == NameKey;
    assert field[n..j] == w;
    assert field[j + 1..j + 1 + |v|] == v;
    assert field[j] == '"' && field[j + 1 + |v|] == '"';
    SliceOfOccurrence(s, field, i, 0, n);
    SliceOfOccurrence(s, field, i, n, j);
    SliceOfOccurrence(s, field, i, j + 1, j + 1 + |v|);
    assert s[i + j] == field[j] && s[i + j + 1 + |v|] == field[j + 1 + |v|];
  }

  /** A name field at `i` is matched there, with its value as the capture. */
  lemma FieldIsMatch(s: string, i: nat, w: string, v: string)
    requires NameField(s, i, w, v)
    ensures MatchAt(s, i) == Some(v)
  {
    FieldPieces(s, i, w, v);
    var j := i + |NameKey| + |w|;
    var k := j + 1 + |v|;
    forall m | i + |NameKey| <= m < j ensures IsWhiteSpace(s[m]) {
      assert s[m] == w[m - i - |NameKey|];
    }
    SkipSpaceTo(s, i + |NameKey|, j);
    forall m | j + 1 <= m < k ensures s[m] != '"' {
      assert s[m] == v[m - j - 1];
    }
    QuoteFromTo(s, j + 1, k);
  }

  /** A match at `i` is exactly a name field at `i`, and its capture is the field's value. */
  lemma MatchAtExactly(s: string, i: nat, v: string)
    requires i <= |s|
    ensures MatchAt(s, i) == Some(v) <==> exists w :: NameField(s, i, w, v)
  {
    if MatchAt(s, i) == Some(v) {
      MatchIsField(s, i, v);
    }
    if w :| NameField(s, i, w, v) {
      FieldIsMatch(s, i, w, v);
    }
  }

  /** The scan returns the match at the smallest index where there is one, and nothing when there is none. */
  lemma {:induction false} FirstMatchIsFirst(s: string, i: nat)
    requires i <= |s|
    ensures FirstMatch(s, i).None? ==> forall p :: i <= p <= |s| ==> MatchAt(s, p).None?
    ensures FirstMatch(s, i).Some? ==> exists p :: i <= p <= |s| && MatchAt(s, p) == FirstMatch(s, i) &&
                                         forall q :: i <= q < p ==> MatchAt(s, q).None?
    decreases |s| - i
  {
    var m := MatchAt(s, i);
    if m.Some? || i == |s| {
      assert FirstMatch(s, i) == m;
    } else {
      FirstMatchIsFirst(s, i + 1);
      assert FirstMatch(s, i) == FirstMatch(s, i + 1);
      if FirstMatch(s, i + 1).Some? {
        var p :| i + 1 <= p <= |s| && MatchAt(s, p) == FirstMatch(s, i + 1) &&
                 forall q :: i + 1 <= q < p ==> MatchAt(s, q).None?;
        assert forall q :: i <= q < p ==> MatchAt(s, q).None?;
      }
    }
  }

  /**
   * The project name is the value of the first name field in the text, or
   * `Project` when the text holds none; a found name is never empty and holds
   * no double quote.
   */
  lemma ProjectNameFound(s: string)
    ensures ProjectName(s) != "Project" ==> exists i: nat, w :: i <= |s| && NameField(s, i, w, ProjectName(s))
    ensures (forall i: nat, w, v :: i <= |s| ==> !NameField(s, i, w, v)) ==> ProjectName(s) == "Project"
    ensures FirstMatch(s, 0).Some? ==> |ProjectName(s)| > 0 && '"' !in ProjectName(s)
  {
    FirstMatchIsFirst(s, 0);
    if FirstMatch(s, 0).Some? {
      var p :| 0 <= p <= |s| && MatchAt(s, p) == FirstMatch(s, 0);
      MatchAtExactly(s, p, ProjectName(s));
    } else {
      assert ProjectName(s) == "Project";
    }
  }

  /** A text that starts with a name field is named after it. */
  lemma LeadingNameField(s: string, w: string, v: string)
    requires NameField(s, 0, w, v)
    ensures ProjectName(s) == v
  {
    MatchAtExactly(s, 0, v);
  }

  // ---------------------------------------------------------------------------
  // generateWithTemplate: the technology stack and the text
  // ---------------------------------------------------------------------------

  const StackOrder: seq<string> := ["React", "Node.js", "TypeScript"]

  /** The substring test behind each entry of the stack. */
  predicate Signals(s: string, tech: string) {
    || (tech == "React" && Includes(s, "react"))
    || (tech == "Node.js" && (Includes(s, "node") || Includes(s, "express")))
    || (tech == "TypeScript" && (Includes(s, "typescript") || Includes(s, ".ts")))
  }

  /** `Signals` for the text `s`, as a test on technologies. */
  function SignalledIn(s: string): string -> bool {
    t => Signals(s, t)
  }

  /** `techStack`, built by the three conditional pushes. */
  function TechStack(s: string): seq<string> {
    var stack := [];
    var stack := stack + (if Includes(s, "react") then ["React"] else []);
    var stack := stack + (if Includes(s, "node") || Includes(s, "express") then ["Node.js"] else []);
    stack + (if Includes(s, "typescript") || Includes(s, ".ts") then ["TypeScript"] else [])
  }

  lemma TechStackIsFilter(s: string)
    ensures TechStack(s) == Filter(StackOrder, SignalledIn(s))
  {
    var p := SignalledIn(s);
    var react: seq<string> := if Includes(s, "react") then ["React"] else [];
    var node: seq<string> := if Includes(s, "node") || Includes(s, "express") then ["Node.js"] else [];
    var ts: seq<string> := if Includes(s, "typescript") || Includes(s, ".ts") then ["TypeScript"] else [];
    assert p("React") == Includes(s, "react");
    assert p("Node.js") == (Includes(s, "node") || Includes(s, "express"));
    assert p("TypeScript") == (Includes(s, "typescript") || Includes(s, ".ts"));
    assert StackOrder[1..] == ["Node.js", "TypeScript"];
    assert StackOrder[1..][1..] == ["TypeScript"];
    assert Filter(["TypeScript"], p) == ts;
    assert Filter(StackOrder[1..], p) == node + ts;
    assert Filter(StackOrder, p) == react + (node + ts);
    EmptyPrefix(react);
    assert TechStack(s) == react + node + ts;
    AppendAssociates(react, node, ts);
  }

  /** The stack is the signalled technologies in the fixed order React, Node.js, TypeScript. */
  lemma TechStackInOrder(s: string)
    ensures TechStack(s) == Filter(StackOrder, SignalledIn(s))
    ensures Subsequence(TechStack(s), StackOrder)
    ensures forall t :: t in TechStack(s) <==> t in StackOrder && Signals(s, t)
  {
    var p := SignalledIn(s);
    TechStackIsFilter(s);
    FilterSubsequence(StackOrder, p);
    forall t | t in StackOrder && Signals(s, t) ensures t in TechStack(s) {
      FilterKeeps(StackOrder, p, t);
    }
  }

  /** `techStack.map(tech => \`- ${tech}\`)` */
  function Bullets(stack: seq<string>): (lines: seq<string>)
    ensures |lines| == |stack|
    ensures forall k :: 0 <= k < |stack| ==> lines[k] == "- " + stack[k]
    decreases |stack|
  {
    if |stack| == 0 then [] else ["- " + stack[0]] + Bullets(stack[1..])
  }

  /** The body of the "Technologies Used" section. */
  function TechnologiesBlock(stack: seq<string>): string {
    if |stack| > 0 then Join(Bullets(stack), "\n") else "- JavaScript"
  }

  /** The kind of application named in the description. */
  function Description(stack: seq<string>): string {
    if |stack| > 0 then Join(stack, ", ") else "web"
  }

  const TemplateTail: string :=
    "\n\n## Installation\n```bash\nnpm install\n```\n\n## Usage\n```bash\nnpm start\n```\n\n" +
    "## Contributing\nPull requests are welcome. For major changes, please open an issue first.\n\n" +
    "## License\n[MIT](https://choosealicense.com/licenses/mit/)\n\n---\n" +
    "*This README was generated automatically. Please customize it according to your project's specific needs.*"

  /** The sections between the title line and the fixed closing sections. */
  function Middle(stack: seq<string>): string {
    "\n## Description\nThis project appears to be a " + Description(stack) +
    " application.\n\n## Technologies Used\n" + TechnologiesBlock(stack)
  }

  /** `generateWithTemplate(repoContent)` */
  function Template(s: string): string {
    "# " + ProjectName(s) + "\n" + Middle(TechStack(s)) + TemplateTail
  }

  lemma Framed(a: string, b: string, c: string)
    ensures StartsWith(a + b + c, a) && EndsWith(a + b + c, c)
  {
    AppendAssociates(a, b, c);
    StartsWithAppend(a, b + c);
    EndsWithAppend(a + b, c);
  }

  /** The README opens with the project name as its title and ends with the fixed closing sections. */
  lemma TemplateFrame(s: string)
    ensures StartsWith(Template(s), "# " + ProjectName(s) + "\n")
    ensures EndsWith(Template(s), TemplateTail)
  {
    Framed("# " + ProjectName(s) + "\n", Middle(TechStack(s)), TemplateTail);
  }

  /** Stack entries hold no line break, so neither do their bullets. */
  lemma {:induction false} BulletsOneLine(stack: seq<string>)
    requires forall k :: 0 <= k < |stack| ==> stack[k] in StackOrder
    ensures forall k :: 0 <= k < |stack| ==> '\n' !in Bullets(stack)[k]
  {
    forall k | 0 <= k < |stack| ensures '\n' !in Bullets(stack)[k] {
      var t := stack[k];
      assert t == "React" || t == "Node.js" || t == "TypeScript";
      assert Bullets(stack)[k] == "- " + t;
    }
  }

  lemma JavaScriptLine()
    ensures Split("- JavaScript", '\n') == ["- JavaScript"]
  {
    SplitJoin(["- JavaScript"], '\n');
  }

  /** The technologies section lists one `- tech` line per stack entry, or `- JavaScript` alone. */
  lemma TechnologiesLines(s: string)
    ensures var stack := TechStack(s);
      Split(TechnologiesBlock(stack), '\n') == (if |stack| > 0 then Bullets(stack) else ["- JavaScript"])
  {
    var stack := TechStack(s);
    TechStackInOrder(s);
    if |stack| > 0 {
      BulletsOneLine(stack);
      SplitJoin(Bullets(stack), '\n');
    } else {
      JavaScriptLine();
    }
  }
}
