/**
 * The technology detection at the end of the repository digest: languages
 * from file extensions, frameworks from words in the digest text and tools
 * from file names, each list in a fixed order, printed one line per
 * non-empty list.
 */
module Technologies {
  import opened JsText
  import opened FileSelection

  /** What a detection rule looks for. */
  datatype Test =
    | Suffix(suffixes: seq<string>)   // some lower-cased path ends with one of these
    | Mentions(word: string)          // the digest text contains this word
    | Named(name: string)             // some lower-cased path is exactly this
    | NamePart(part: string)          // some lower-cased path contains this

  datatype Rule = Rule(test: Test, name: string)

  /** `names.some(f => f.endsWith(x) || ...)` over the given suffixes. */
  predicate AnyEndsWith(names: seq<string>, suffixes: seq<string>) {
    exists f, x :: f in names && x in suffixes && EndsWith(f, x)
  }

  /** `names.some(f => f.includes(part))` */
  predicate AnyIncludes(names: seq<string>, part: string) {
    exists f :: f in names && Includes(f, part)
  }

  predicate Holds(t: Test, names: seq<string>, content: string) {
    match t
    case Suffix(sfx) => AnyEndsWith(names, sfx)
    case Mentions(w) => Includes(content, w)
    case Named(n) => n in names
    case NamePart(p) => AnyIncludes(names, p)
  }

  const JavaScript: Rule := Rule(Suffix([".js", ".jsx"]), "JavaScript")
  const TypeScript: Rule := Rule(Suffix([".ts", ".tsx"]), "TypeScript")
  const Python: Rule := Rule(Suffix([".py"]), "Python")
  const Java: Rule := Rule(Suffix([".java"]), "Java")
  const Go: Rule := Rule(Suffix([".go"]), "Go")
  const Rust: Rule := Rule(Suffix([".rs"]), "Rust")
  const PHP: Rule := Rule(Suffix([".php"]), "PHP")
  const Ruby: Rule := Rule(Suffix([".rb"]), "Ruby")
  const LanguageRules: seq<Rule> := [JavaScript, TypeScript, Python, Java, Go, Rust, PHP, Ruby]

  const React: Rule := Rule(Mentions("react"), "React")
  const VueJs: Rule := Rule(Mentions("vue"), "Vue.js")
  const Angular: Rule := Rule(Mentions("angular"), "Angular")
  const ExpressJs: Rule := Rule(Mentions("express"), "Express.js")
  const Django: Rule := Rule(Mentions("django"), "Django")
  const Flask: Rule := Rule(Mentions("flask"), "Flask")
  const SpringBoot: Rule := Rule(Mentions("spring"), "Spring Boot")
  const Laravel: Rule := Rule(Mentions("laravel"), "Laravel")
  const FrameworkRules: seq<Rule> := [React, VueJs, Angular, ExpressJs, Django, Flask, SpringBoot, Laravel]

  const NpmNodeJs: Rule := Rule(Named("package.json"), "npm/Node.js")
  const Yarn: Rule := Rule(Named("yarn.lock"), "Yarn")
  const Docker: Rule := Rule(Named("dockerfile"), "Docker")
  const DockerCompose: Rule := Rule(Named("docker-compose.yml"), "Docker Compose")
  const Webpack: Rule := Rule(NamePart("webpack"), "Webpack")
  const Vite: Rule := Rule(NamePart("vite"), "Vite")
  const TailwindCSS: Rule := Rule(Named("tailwind.config.js"), "Tailwind CSS")
  const ToolRules: seq<Rule> := [NpmNodeJs, Yarn, Docker, DockerCompose, Webpack, Vite, TailwindCSS]

  /** The label a rule contributes: its name when it holds, nothing otherwise. */
  function Hit(r: Rule, names: seq<string>, content: string): seq<string> {
    if Holds(r.test, names, content) then [r.name] else []
  }

  /** The labels of the rules that hold, in rule order. */
  function Detected(rules: seq<Rule>, names: seq<string>, content: string): seq<string>
    decreases |rules|
  {
    if |rules| == 0 then []
    else Detected(rules[..|rules| - 1], names, content) + Hit(rules[|rules| - 1], names, content)
  }

  /** Checking one more rule adds its hit at the end. */
  lemma DetectedSnoc(rules: seq<Rule>, r: Rule, names: seq<string>, content: string)
    ensures Detected(rules + [r], names, content) == Detected(rules, names, content) + Hit(r, names, content)
  {
    assert (rules + [r])[..|rules|] == rules;
  }

  function Labels(rules: seq<Rule>): (r: seq<string>)
    ensures |r| == |rules|
  {
    seq(|rules|, i requires 0 <= i < |rules| => rules[i].name)
  }

  /** `files.map(f => f.path.toLowerCase())` */
  function FileNames(files: seq<TreeEntry>): (r: seq<string>)
    ensures |r| == |files|
  {
    seq(|files|, i requires 0 <= i < |files| => ToLower(files[i].path))
  }

  /** One output line, present only when something was detected. */
  function Section(heading: string, labels: seq<string>): string {
    if |labels| > 0 then heading + Join(labels, ", ") + "\n" else ""
  }

  const NothingDetected: string := "No specific technologies detected"

  /** The three section lines, or the fallback sentence when all three are empty. */
  function Report(languages: seq<string>, frameworks: seq<string>, tools: seq<string>): string {
    var text := Section("Languages: ", languages) + Section("Frameworks: ", frameworks) + Section("Tools: ", tools);
    if |text| == 0 then NothingDetected else text
  }

  /** The detection text for a tree and the digest text written so far. */
  function TechnologiesText(files: seq<TreeEntry>, content: string): string {
    var names := FileNames(files);
    Report(Detected(LanguageRules, names, content), Detected(FrameworkRules, names, content), Detected(ToolRules, names, content))
  }

  /** `detectTechnologies(files, content)` */
  method DetectTechnologies(files: seq<TreeEntry>, content: string) returns (result: string)
    ensures result == TechnologiesText(files, content)
  {
    var fileNames := FileNames(files);

    var technologies := DetectLanguages(fileNames, content);
    var frameworks := DetectFrameworks(fileNames, content);
    var tools := DetectTools(fileNames, content);

    result := "";
    result := AddSection(result, "Languages: ", technologies);
    EmptyPrefix(Section("Languages: ", technologies));
    result := AddSection(result, "Frameworks: ", frameworks);
    result := AddSection(result, "Tools: ", tools);
    if |result| == 0 { result := NothingDetected; }
  }

  /** `if (labels.length > 0) result += `${heading}${labels.join(', ')}\n`` */
  method AddSection(text: string, heading: string, labels: seq<string>) returns (r: string)
    ensures r == text + Section(heading, labels)
  {
    r := text;
    if |labels| > 0 {
      r := r + heading + Join(labels, ", ") + "\n";
    }
  }

  /** The language checks: some lower-cased path ends with the extension. */
  method DetectLanguages(fileNames: seq<string>, content: string) returns (technologies: seq<string>)
    ensures technologies == Detected(LanguageRules, fileNames, content)
  {
    technologies := [];
    technologies := PushIf(technologies, AnyEndsWith(fileNames, [".js", ".jsx"]), "JavaScript");
    technologies := PushIf(technologies, AnyEndsWith(fileNames, [".ts", ".tsx"]), "TypeScript");
    technologies := PushIf(technologies, AnyEndsWith(fileNames, [".py"]), "Python");
    technologies := PushIf(technologies, AnyEndsWith(fileNames, [".java"]), "Java");
    technologies := PushIf(technologies, AnyEndsWith(fileNames, [".go"]), "Go");
    technologies := PushIf(technologies, AnyEndsWith(fileNames, [".rs"]), "Rust");
    technologies := PushIf(technologies, AnyEndsWith(fileNames, [".php"]), "PHP");
    technologies := PushIf(technologies, AnyEndsWith(fileNames, [".rb"]), "Ruby");
    DetectedEight(JavaScript, TypeScript, Python, Java, Go, Rust, PHP, Ruby, fileNames, content);
  }

  /** The framework checks: the digest text contains the word. */
  method DetectFrameworks(fileNames: seq<string>, content: string) returns (frameworks: seq<string>)
    ensures frameworks == Detected(FrameworkRules, fileNames, content)
  {
    frameworks := [];
    frameworks := PushIf(frameworks, Includes(content, "react"), "React");
    frameworks := PushIf(frameworks, Includes(content, "vue"), "Vue.js");
    frameworks := PushIf(frameworks, Includes(content, "angular"), "Angular");
    frameworks := PushIf(frameworks, Includes(content, "express"), "Express.js");
    frameworks := PushIf(frameworks, Includes(content, "django"), "Django");
    frameworks := PushIf(frameworks, Includes(content, "flask"), "Flask");
    frameworks := PushIf(frameworks, Includes(content, "spring"), "Spring Boot");
    frameworks := PushIf(frameworks, Includes(content, "laravel"), "Laravel");
    DetectedEight(React, VueJs, Angular, ExpressJs, Django, Flask, SpringBoot, Laravel, fileNames, content);
  }

  /** The tool checks: a lower-cased path is, or contains, the name. */
  method DetectTools(fileNames: seq<string>, content: string) returns (tools: seq<string>)
    ensures tools == Detected(ToolRules, fileNames, content)
  {
    tools := [];
    tools := PushIf(tools, "package.json" in fileNames, "npm/Node.js");
    tools := PushIf(tools, "yarn.lock" in fileNames, "Yarn");
    tools := PushIf(tools, "dockerfile" in fileNames, "Docker");
    tools := PushIf(tools, "docker-compose.yml" in fileNames, "Docker Compose");
    tools := PushIf(tools, AnyIncludes(fileNames, "webpack"), "Webpack");
    tools := PushIf(tools, AnyIncludes(fileNames, "vite"), "Vite");
    tools := PushIf(tools, "tailwind.config.js" in fileNames, "Tailwind CSS");
    DetectedSeven(NpmNodeJs, Yarn, Docker, DockerCompose, Webpack, Vite, TailwindCSS, fileNames, content);
  }

  /** Seven rules in a row contribute their hits in order. */
  lemma DetectedSeven(r0: Rule, r1: Rule, r2: Rule, r3: Rule, r4: Rule, r5: Rule, r6: Rule, names: seq<string>, content: string)
    ensures Detected([r0, r1, r2, r3, r4, r5, r6], names, content)
      == [] + Hit(r0, names, content) + Hit(r1, names, content) + Hit(r2, names, content) + Hit(r3, names, content)
         + Hit(r4, names, content) + Hit(r5, names, content) + Hit(r6, names, content)
  {
    DetectedSnoc([], r0, names, content);
    assert [] + [r0] == [r0];
    DetectedSnoc([r0], r1, names, content);
    assert [r0] + [r1] == [r0, r1];
    DetectedSnoc([r0, r1], r2, names, content);
    assert [r0, r1] + [r2] == [r0, r1, r2];
    DetectedSnoc([r0, r1, r2], r3, names, content);
    assert [r0, r1, r2] + [r3] == [r0, r1, r2, r3];
    DetectedSnoc([r0, r1, r2, r3], r4, names, content);
    assert [r0, r1, r2, r3] + [r4] == [r0, r1, r2, r3, r4];
    DetectedSnoc([r0, r1, r2, r3, r4], r5, names, content);
    assert [r0, r1, r2, r3, r4] + [r5] == [r0, r1, r2, r3, r4, r5];
    DetectedSnoc([r0, r1, r2, r3, r4, r5], r6, names, content);
    assert [r0, r1, r2, r3, r4, r5] + [r6] == [r0, r1, r2, r3, r4, r5, r6];
  }

  /** Eight rules in a row contribute their hits in order. */
  lemma DetectedEight(r0: Rule, r1: Rule, r2: Rule, r3: Rule, r4: Rule, r5: Rule, r6: Rule, r7: Rule, names: seq<string>, content: string)
    ensures Detected([r0, r1, r2, r3, r4, r5, r6, r7], names, content)
      == [] + Hit(r0, names, content) + Hit(r1, names, content) + Hit(r2, names, content) + Hit(r3, names, content)
         + Hit(r4, names, content) + Hit(r5, names, content) + Hit(r6, names, content) + Hit(r7, names, content)
  {
    DetectedSeven(r0, r1, r2, r3, r4, r5, r6, names, content);
    DetectedSnoc([r0, r1, r2, r3, r4, r5, r6], r7, names, content);
    assert [r0, r1, r2, r3, r4, r5, r6] + [r7] == [r0, r1, r2, r3, r4, r5, r6, r7];
  }

  /** `if (cond) list.push(item)` */
  method PushIf(list: seq<string>, cond: bool, item: string) returns (r: seq<string>)
    ensures r == list + (if cond then [item] else [])
  {
    r := list;
    if cond {
      r := r + [item];
    }
  }


  // ---------------------------------------------------------------------------
  // What the detection lists mean
  // ---------------------------------------------------------------------------

  /** The rules whose test holds, as `rules.filter(...)` would keep them. */
  function Holding(rules: seq<Rule>, names: seq<string>, content: string): seq<Rule> {
    Filter(rules, (r: Rule) => Holds(r.test, names, content))
  }

  lemma LabelsAppend(a: seq<Rule>, b: seq<Rule>)
    ensures Labels(a + b) == Labels(a) + Labels(b)
  {
  }

  /**
   * The pushed list is the names of the rules that hold, in table order:
   * `rules.filter(holds).map(r => r.name)`.
   */
  lemma {:induction false} DetectedIsFilter(rules: seq<Rule>, names: seq<string>, content: string)
    ensures Detected(rules, names, content) == Labels(Holding(rules, names, content))
    decreases |rules|
  {
    if |rules| > 0 {
      var init, last := rules[..|rules| - 1], rules[|rules| - 1];
      assert rules == init + [last];
      DetectedIsFilter(init, names, content);
      var p := (r: Rule) => Holds(r.test, names, content);
      FilterAppend(init, [last], p);
      assert Filter([last], p) == if p(last) then [last] else [];
      LabelsAppend(Filter(init, p), Filter([last], p));
    }
  }

  /** A label is listed exactly when some rule carrying it holds. */
  lemma {:induction false} DetectedMember(rules: seq<Rule>, names: seq<string>, content: string, name: string)
    ensures name in Detected(rules, names, content)
        <==> exists r :: r in rules && r.name == name && Holds(r.test, names, content)
    decreases |rules|
  {
    if |rules| > 0 {
      var init, last := rules[..|rules| - 1], rules[|rules| - 1];
      assert rules == init + [last];
      DetectedMember(init, names, content, name);
      if name in Detected(rules, names, content) && name !in Detected(init, names, content) {
        assert last in rules && last.name == name && Holds(last.test, names, content);
      }
      if exists r :: r in rules && r.name == name && Holds(r.test, names, content) {
        var r :| r in rules && r.name == name && Holds(r.test, names, content);
        if r != last {
          assert r in init;
        }
      }
    }
  }

  /** Rules with distinct names give a list without repeats. */
  lemma {:induction false} DetectedDistinct(rules: seq<Rule>, names: seq<string>, content: string)
    requires Distinct(Labels(rules))
    ensures Distinct(Detected(rules, names, content))
    decreases |rules|
  {
    if |rules| > 0 {
      var init, last := rules[..|rules| - 1], rules[|rules| - 1];
      assert Labels(init) == Labels(rules)[..|rules| - 1];
      DetectedDistinct(init, names, content);
      var before := Detected(init, names, content);
      forall r | r in init ensures r.name != last.name {
        var i :| 0 <= i < |init| && init[i] == r;
        assert Labels(rules)[i] == r.name && Labels(rules)[|rules| - 1] == last.name;
      }
      DetectedMember(init, names, content, last.name);
      assert last.name !in before;
    }
  }

  /** The three tables name each technology once. */
  lemma TablesDistinct()
    ensures Distinct(Labels(LanguageRules))
    ensures Distinct(Labels(FrameworkRules))
    ensures Distinct(Labels(ToolRules))
  {
    assert Labels(LanguageRules) == ["JavaScript", "TypeScript", "Python", "Java", "Go", "Rust", "PHP", "Ruby"];
    assert Labels(FrameworkRules) == ["React", "Vue.js", "Angular", "Express.js", "Django", "Flask", "Spring Boot", "Laravel"];
    assert Labels(ToolRules) == ["npm/Node.js", "Yarn", "Docker", "Docker Compose", "Webpack", "Vite", "Tailwind CSS"];
  }

  /** With distinct names, a rule's name is listed exactly when the rule holds. */
  lemma DetectedHit(rules: seq<Rule>, i: nat, names: seq<string>, content: string)
    requires i < |rules| && Distinct(Labels(rules))
    ensures rules[i].name in Detected(rules, names, content) <==> Holds(rules[i].test, names, content)
  {
    DetectedMember(rules, names, content, rules[i].name);
    if rules[i].name in Detected(rules, names, content) {
      var r :| r in rules && r.name == rules[i].name && Holds(r.test, names, content);
      var j :| 0 <= j < |rules| && rules[j] == r;
      assert Labels(rules)[i] == Labels(rules)[j];
    }
  }

  /** No line at all gives the fallback sentence, and only then. */
  lemma ReportEmpty(languages: seq<string>, frameworks: seq<string>, tools: seq<string>)
    ensures Report(languages, frameworks, tools) == NothingDetected
        <==> languages == [] && frameworks == [] && tools == []
  {
    var l, f, t := Section("Languages: ", languages), Section("Frameworks: ", frameworks), Section("Tools: ", tools);
    var text := l + f + t;
    if |text| > 0 {
      assert text[0] in {'L', 'F', 'T'} by {
        if |l| > 0 { assert text[0] == l[0] == 'L'; }
        else if |f| > 0 { assert text[0] == f[0] == 'F'; }
        else { assert text[0] == t[0] == 'T'; }
      }
      assert NothingDetected[0] == 'N';
    }
  }

  /** A list is empty exactly when none of its rules holds. */
  lemma DetectedEmpty(rules: seq<Rule>, names: seq<string>, content: string)
    ensures Detected(rules, names, content) == [] <==> forall r :: r in rules ==> !Holds(r.test, names, content)
  {
    var d := Detected(rules, names, content);
    if d != [] {
      DetectedMember(rules, names, content, d[0]);
    }
    forall r | r in rules && Holds(r.test, names, content) ensures d != [] {
      DetectedMember(rules, names, content, r.name);
    }
  }

  /** The fallback sentence is printed exactly when no rule of any table holds. */
  lemma NothingDetectedExactly(files: seq<TreeEntry>, content: string)
    ensures TechnologiesText(files, content) == NothingDetected
        <==> forall r :: r in LanguageRules + FrameworkRules + ToolRules ==> !Holds(r.test, FileNames(files), content)
  {
    var names := FileNames(files);
    ReportEmpty(Detected(LanguageRules, names, content), Detected(FrameworkRules, names, content), Detected(ToolRules, names, content));
    DetectedEmpty(LanguageRules, names, content);
    DetectedEmpty(FrameworkRules, names, content);
    DetectedEmpty(ToolRules, names, content);
  }

  /** A rule that looks for a word in the text holds whenever the text contains the word. */
  lemma MentionedListed(rules: seq<Rule>, r: Rule, names: seq<string>, content: string)
    requires r in rules && r.test.Mentions? && Includes(content, r.test.word)
    ensures r.name in Detected(rules, names, content)
  {
    DetectedMember(rules, names, content, r.name);
  }

  /** Every framework rule looks for a word in the digest text. */
  lemma FrameworksMention()
    ensures forall r :: r in FrameworkRules ==> r.test.Mentions?
  {
  }
}
