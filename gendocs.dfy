/**
 * The text the README generator builds for an action: the usage example
 * blocks, the action path `org/repo[/dir]` taken from the git remotes, and
 * the custom examples collected from a directory of Markdown files.
 *
 * `splitlines` is read with "\n" as the only line boundary. The git
 * subprocess, the walk up to the `.git` directory, and the file system are
 * inputs: the remote listing as text, the directory of the action relative
 * to the repository root as text, and the usage directory as a list of
 * (file name, content) pairs.
 */
module GenDocs {
  import opened Wrappers
  import opened Text
  import opened Order
  import opened Models

  // ---------------------------------------------------------------------------
  // format_usage_lines

  /** `str(v)` for an optional string: the string itself, or "None". */
  function PyStr(v: Option<string>): string {
    match v
    case None => "None"
    case Some(s) => s
  }

  /** The value an input shows in an example: its example if it is required, otherwise its default. */
  function ShownValue(input: ActionInput): string {
    PyStr(if IsRequired(input) then input.example else input.default)
  }

  /** Each line with `prefix` put in front of it. */
  function Prefixed(prefix: string, lines: seq<string>): (r: seq<string>)
    ensures |r| == |lines|
    ensures forall k | 0 <= k < |r| :: r[k] == prefix + lines[k]
  {
    seq(|lines|, k requires 0 <= k < |lines| => prefix + lines[k])
  }

  /** The lines one input contributes under `with:`. */
  function InputLines(key: string, input: ActionInput): seq<string> {
    var value := ShownValue(input);
    if '\n' in value then ["    " + key + ": |"] + Prefixed("      ", SplitLines(value))
    else ["    " + key + ": " + value]
  }

  /** `format_usage_lines(inputs)`: the lines of each input, in input order. */
  function UsageLines(inputs: seq<(string, ActionInput)>): seq<string> {
    if inputs == [] then [] else InputLines(inputs[0].0, inputs[0].1) + UsageLines(inputs[1..])
  }

  /** A shown value without "\n" is one line: four spaces, the key, ": " and the value. */
  lemma InputLinesSingle(key: string, input: ActionInput)
    requires '\n' !in ShownValue(input)
    ensures InputLines(key, input) == ["    " + key + ": " + ShownValue(input)]
  {
  }

  /** An absent value is shown as `str(None)`: "None". */
  lemma InputLinesAbsent(key: string, input: ActionInput)
    requires if IsRequired(input) then input.example.None? else input.default.None?
    ensures InputLines(key, input) == ["    " + key + ": None"]
  {
    assert ShownValue(input) == "None";
    assert '\n' !in "None";
    assert "    " + key + ": " + "None" == "    " + key + ": None";
  }

  /**
   * A shown value with "\n" is a YAML block: "key: |", then one line per line
   * of the value, each indented by six spaces. Taking the indentation off and
   * joining the lines gives the value back, less one final "\n".
   */
  lemma InputLinesBlock(key: string, input: ActionInput)
    requires '\n' in ShownValue(input)
    ensures var lines, value := InputLines(key, input), ShownValue(input);
      && |lines| >= 1 && lines[0] == "    " + key + ": |"
      && (forall k | 1 <= k < |lines| :: StartsAt(lines[k], 0, "      ") && '\n' !in lines[k][6..])
      && Join("\n", seq(|lines| - 1, k requires 0 <= k < |lines| - 1 => lines[k + 1][6..]))
           + (if value[|value| - 1] == '\n' then "\n" else "") == value
  {
    var value := ShownValue(input);
    var lines := InputLines(key, input);
    var body := SplitLines(value);
    assert lines == ["    " + key + ": |"] + Prefixed("      ", body);
    forall k | 1 <= k < |lines| ensures StartsAt(lines[k], 0, "      ") && lines[k][6..] == body[k - 1] {
      assert lines[k] == "      " + body[k - 1];
    }
    assert seq(|lines| - 1, k requires 0 <= k < |lines| - 1 => lines[k + 1][6..]) == body;
    SplitLinesJoin(value);
  }

  /** A final "\n" after the last line of a block value adds no line. */
  lemma BlockIgnoresTrailingNewline(key: string, a: ActionInput, b: ActionInput)
    requires '\n' in ShownValue(a) && ShownValue(a)[|ShownValue(a)| - 1] != '\n'
    requires ShownValue(b) == ShownValue(a) + "\n"
    ensures InputLines(key, b) == InputLines(key, a)
  {
    SplitLinesTrailingNewline(ShownValue(a));
  }

  /** The lines of two runs of inputs are the lines of the first, then those of the second. */
  lemma {:induction false} UsageLinesAppend(a: seq<(string, ActionInput)>, b: seq<(string, ActionInput)>)
    ensures UsageLines(a + b) == UsageLines(a) + UsageLines(b)
    decreases |a|
  {
    if a != [] {
      assert (a + b)[0] == a[0] && (a + b)[1..] == a[1..] + b;
      UsageLinesAppend(a[1..], b);
      var first := InputLines(a[0].0, a[0].1);
      assert first + (UsageLines(a[1..]) + UsageLines(b)) == (first + UsageLines(a[1..])) + UsageLines(b);
    } else {
      assert a + b == b;
    }
  }

  /** Inputs whose shown values have no "\n" give one line each, in input order. */
  lemma {:induction false} UsageLinesOnePerInput(inputs: seq<(string, ActionInput)>)
    requires forall i | 0 <= i < |inputs| :: '\n' !in ShownValue(inputs[i].1)
    ensures |UsageLines(inputs)| == |inputs|
    ensures forall i | 0 <= i < |inputs| :: UsageLines(inputs)[i] == "    " + inputs[i].0 + ": " + ShownValue(inputs[i].1)
    decreases |inputs|
  {
    if inputs != [] {
      UsageLinesOnePerInput(inputs[1..]);
      assert forall i | 1 <= i < |inputs| :: inputs[1..][i - 1] == inputs[i];
    }
  }

  /** No usage line holds "\n" when no key does. */
  lemma {:induction false} UsageLinesSingleLines(inputs: seq<(string, ActionInput)>)
    requires forall i | 0 <= i < |inputs| :: '\n' !in inputs[i].0
    ensures forall k | 0 <= k < |UsageLines(inputs)| :: '\n' !in UsageLines(inputs)[k]
    decreases |inputs|
  {
    if inputs != [] {
      var (key, input) := inputs[0];
      var first := InputLines(key, input);
      if '\n' in ShownValue(input) {
        forall k | 1 <= k < |first| ensures '\n' !in first[k] {
          assert first[k] == "      " + SplitLines(ShownValue(input))[k - 1];
        }
      }
      assert forall k | 0 <= k < |first| :: '\n' !in first[k];
      assert forall i | 0 <= i < |inputs[1..]| :: inputs[1..][i] == inputs[i + 1];
      UsageLinesSingleLines(inputs[1..]);
    }
  }

  // ---------------------------------------------------------------------------
  // generate_example_usage and the two filtered examples

  /** The lines of a usage example: the fence, the `uses:` line, `with:`, the inputs, the closing fence. */
  function ExampleLines(actionPath: string, inputs: seq<(string, ActionInput)>): seq<string> {
    ["```yaml", "- uses: " + actionPath, "  with:"] + UsageLines(inputs) + ["```"]
  }

  /** `generate_example_usage`: the lines joined by "\n", with no final newline. */
  function ExampleUsage(actionPath: string, inputs: seq<(string, ActionInput)>): string {
    Join("\n", ExampleLines(actionPath, inputs))
  }

  lemma {:induction false} JoinLast(sep: string, xs: seq<string>)
    requires |xs| >= 1
    ensures |Join(sep, xs)| >= |xs[|xs| - 1]|
    ensures Join(sep, xs)[|Join(sep, xs)| - |xs[|xs| - 1]|..] == xs[|xs| - 1]
    decreases |xs|
  {
    if |xs| > 1 {
      JoinLast(sep, xs[1..]);
      var rest := Join(sep, xs[1..]);
      var last := xs[|xs| - 1];
      assert xs[1..][|xs[1..]| - 1] == last;
      assert (xs[0] + sep + rest)[|xs[0] + sep + rest| - |last|..] == rest[|rest| - |last|..];
    }
  }

  /**
   * When neither the action path nor any key holds "\n", splitting the example
   * at "\n" gives back exactly its lines; the text ends with the closing fence.
   */
  lemma ExampleUsageSplits(actionPath: string, inputs: seq<(string, ActionInput)>)
    requires '\n' !in actionPath
    requires forall i | 0 <= i < |inputs| :: '\n' !in inputs[i].0
    ensures Split(ExampleUsage(actionPath, inputs), '\n') == ExampleLines(actionPath, inputs)
    ensures EndsWith(ExampleUsage(actionPath, inputs), "```")
  {
    var lines := ExampleLines(actionPath, inputs);
    var usage := UsageLines(inputs);
    UsageLinesSingleLines(inputs);
    forall k | 0 <= k < |lines| ensures '\n' !in lines[k] {
      if 3 <= k < 3 + |usage| {
        assert lines[k] == usage[k - 3];
      }
    }
    SplitJoin(lines, '\n');
    JoinLast("\n", lines);
  }

  /** The inputs `keep` accepts, in their original order. */
  function Filter(inputs: seq<(string, ActionInput)>, keep: ActionInput -> bool): (r: seq<(string, ActionInput)>)
    ensures forall i | 0 <= i < |r| :: keep(r[i].1)
    ensures forall p :: p in r <==> p in inputs && keep(p.1)
    ensures |r| <= |inputs|
  {
    if inputs == [] then []
    else
      var rest := Filter(inputs[1..], keep);
      assert forall p :: p in inputs <==> p == inputs[0] || p in inputs[1..];
      if keep(inputs[0].1) then [inputs[0]] + rest else rest
  }

  /** Filtering keeps order: the filter of two runs is the filter of the first, then of the second. */
  lemma {:induction false} FilterAppend(a: seq<(string, ActionInput)>, b: seq<(string, ActionInput)>, keep: ActionInput -> bool)
    ensures Filter(a + b, keep) == Filter(a, keep) + Filter(b, keep)
    decreases |a|
  {
    if a != [] {
      assert (a + b)[0] == a[0] && (a + b)[1..] == a[1..] + b;
      FilterAppend(a[1..], b, keep);
      if keep(a[0].1) {
        assert [a[0]] + (Filter(a[1..], keep) + Filter(b, keep)) == ([a[0]] + Filter(a[1..], keep)) + Filter(b, keep);
      }
    } else {
      assert a + b == b;
    }
  }

  /** What `spec.required or spec.default` accepts: a required input, or one with a non-empty default. */
  predicate RequiredOrDefaulted(input: ActionInput) {
    IsRequired(input) || (input.default.Some? && input.default.value != "")
  }

  /** `generate_minimal_usage_example`: the example over the required inputs only. */
  function MinimalUsageExample(actionPath: string, inputs: seq<(string, ActionInput)>): string {
    ExampleUsage(actionPath, Filter(inputs, IsRequired))
  }

  /** `generate_defaults_usage_example`: the example over the inputs that are required or have a non-empty default. */
  function DefaultsUsageExample(actionPath: string, inputs: seq<(string, ActionInput)>): string {
    ExampleUsage(actionPath, Filter(inputs, RequiredOrDefaulted))
  }

  /** Filtering keeps keys free of "\n" when they all were. */
  lemma FilterKeys(inputs: seq<(string, ActionInput)>, keep: ActionInput -> bool)
    requires forall i | 0 <= i < |inputs| :: '\n' !in inputs[i].0
    ensures forall i | 0 <= i < |Filter(inputs, keep)| :: '\n' !in Filter(inputs, keep)[i].0
  {
    var r := Filter(inputs, keep);
    forall i | 0 <= i < |r| ensures '\n' !in r[i].0 {
      assert r[i] in inputs;
    }
  }

  /**
   * The minimal example, line by line: the fence, the `uses:` line, `with:`,
   * the usage lines of the required inputs in their order, the closing fence.
   */
  lemma MinimalExampleLines(actionPath: string, inputs: seq<(string, ActionInput)>)
    requires '\n' !in actionPath
    requires forall i | 0 <= i < |inputs| :: '\n' !in inputs[i].0
    ensures Split(MinimalUsageExample(actionPath, inputs), '\n')
      == ["```yaml", "- uses: " + actionPath, "  with:"] + UsageLines(Filter(inputs, IsRequired)) + ["```"]
  {
    FilterKeys(inputs, IsRequired);
    ExampleUsageSplits(actionPath, Filter(inputs, IsRequired));
  }

  /**
   * The defaults example, line by line: as the minimal one, over the inputs
   * that are required or have a non-empty default.
   */
  lemma DefaultsExampleLines(actionPath: string, inputs: seq<(string, ActionInput)>)
    requires '\n' !in actionPath
    requires forall i | 0 <= i < |inputs| :: '\n' !in inputs[i].0
    ensures Split(DefaultsUsageExample(actionPath, inputs), '\n')
      == ["```yaml", "- uses: " + actionPath, "  with:"] + UsageLines(Filter(inputs, RequiredOrDefaulted)) + ["```"]
  {
    FilterKeys(inputs, RequiredOrDefaulted);
    ExampleUsageSplits(actionPath, Filter(inputs, RequiredOrDefaulted));
  }

  /** Every input the minimal example keeps is in the defaults example too. */
  lemma MinimalWithinDefaults(inputs: seq<(string, ActionInput)>)
    ensures forall p | p in Filter(inputs, IsRequired) :: p in Filter(inputs, RequiredOrDefaulted)
  {
  }

  // ---------------------------------------------------------------------------
  // get_action_path: the remote, then `rstrip("/.")`

  const NoRemoteMessage := "No GitHub remote found."

  /** `[^/\s.]`: a character of the organisation or repository part of a remote URL. */
  predicate IsRemotePartChar(c: char) {
    c != '/' && c != '.' && !IsSpace(c)
  }

  /** Where the run of remote-part characters starting at `i` ends. */
  function PartEnd(t: string, i: nat): (j: nat)
    requires i <= |t|
    ensures i <= j <= |t|
    ensures forall k | i <= k < j :: IsRemotePartChar(t[k])
    ensures j < |t| ==> !IsRemotePartChar(t[j])
    decreases |t| - i
  {
    if i < |t| && IsRemotePartChar(t[i]) then PartEnd(t, i + 1) else i
  }

  /** `github\.com[:/]` at `p`. */
  predicate HostAt(t: string, p: nat) {
    StartsAt(t, p, "github.com") && p + 10 < |t| && (t[p + 10] == ':' || t[p + 10] == '/')
  }

  /** The `org_repo` group of `GITHUB_REMOTE_REGEX` matched at `p`, if it matches there. */
  function OrgRepoAt(t: string, p: nat): Option<string> {
    if !HostAt(t, p) then None
    else
      var a := p + 11;
      var b := PartEnd(t, a);
      if b == a || b == |t| || t[b] != '/' then None
      else
        var c := PartEnd(t, b + 1);
        if c == b + 1 then None else Some(t[a..c])
  }

  /** `GITHUB_REMOTE_REGEX.search(t)` from `p` on: the leftmost match. */
  function SearchFrom(t: string, p: nat): (r: Option<nat>)
    ensures r.Some? ==> p <= r.value <= |t| && OrgRepoAt(t, r.value).Some?
    ensures r.Some? ==> forall k | p <= k < r.value :: OrgRepoAt(t, k).None?
    ensures r.None? ==> forall k | p <= k <= |t| :: OrgRepoAt(t, k).None?
    decreases |t| + 1 - p
  {
    if p > |t| then None
    else if OrgRepoAt(t, p).Some? then Some(p)
    else SearchFrom(t, p + 1)
  }

  /** The `org_repo` of the first match in a remote line. */
  function RemoteOf(line: string): Option<string> {
    match SearchFrom(line, 0)
    case None => None
    case Some(p) => OrgRepoAt(line, p)
  }

  /** Text of the form `org/repo`, both parts non-empty runs of `[^/\s.]`. */
  predicate IsOrgRepo(s: string) {
    exists i | 0 < i < |s| - 1 :: s[i] == '/' && IsOrgRepoSplit(s, i)
  }

  predicate IsOrgRepoSplit(s: string, i: nat)
    requires i < |s|
  {
    forall k | 0 <= k < |s| && k != i :: IsRemotePartChar(s[k])
  }

  /** What a remote line yields is always `org/repo`. */
  lemma RemoteOfSound(line: string)
    ensures RemoteOf(line).Some? ==> IsOrgRepo(RemoteOf(line).value)
  {
    if RemoteOf(line).Some? {
      var p := SearchFrom(line, 0).value;
      var a := p + 11;
      var b := PartEnd(line, a);
      var c := PartEnd(line, b + 1);
      var s := line[a..c];
      assert s == RemoteOf(line).value;
      assert s[b - a] == '/';
      forall k | 0 <= k < |s| && k != b - a ensures IsRemotePartChar(s[k]) {
        assert s[k] == line[a + k];
      }
      assert IsOrgRepoSplit(s, b - a);
    }
  }

  /** The match at `a - 11` when `t[a..c]` is two runs of remote-part characters around "/". */
  lemma OrgRepoAtIs(t: string, a: nat, b: nat, c: nat)
    requires a >= 11 && HostAt(t, a - 11)
    requires a < b && b + 1 < c <= |t| && t[b] == '/'
    requires forall k | a <= k < b :: IsRemotePartChar(t[k])
    requires forall k | b < k < c :: IsRemotePartChar(t[k])
    requires c == |t| || !IsRemotePartChar(t[c])
    ensures OrgRepoAt(t, a - 11) == Some(t[a..c])
  {
    PartEndIs(t, a, b);
    PartEndIs(t, b + 1, c);
  }

  /** Where the pieces of a remote line sit. */
  lemma RemoteLineLayout(line: string, prefix: string, sep: char, org: string, repo: string, rest: string)
    requires line == prefix + "github.com" + [sep] + org + "/" + repo + rest
    ensures var a := |prefix| + 11;
      && StartsAt(line, |prefix|, "github.com") && line[|prefix| + 10] == sep
      && line[a..a + |org| + 1 + |repo|] == org + "/" + repo
      && line[a + |org|] == '/'
      && (forall k | a <= k < a + |org| :: line[k] == org[k - a])
      && (forall k | a + |org| < k < a + |org| + 1 + |repo| :: line[k] == repo[k - a - |org| - 1])
      && (a + |org| + 1 + |repo| < |line| ==> line[a + |org| + 1 + |repo|] == rest[0])
  {
    var p := |prefix|;
    var a := p + 11;
    assert line[p..p + 10] == "github.com";
    assert line == (prefix + "github.com" + [sep]) + (org + "/" + repo) + rest;
    assert line[a..a + |org| + 1 + |repo|] == org + "/" + repo;
  }

  /**
   * A remote line `<prefix>github.com<sep><org>/<repo><rest>`, with no
   * "github.com" starting in the prefix, yields `org/repo`; whatever follows
   * the repository part, `.git` included, is not part of it.
   */
  lemma RemoteOfLine(line: string, prefix: string, sep: char, org: string, repo: string, rest: string)
    requires line == prefix + "github.com" + [sep] + org + "/" + repo + rest
    requires sep == ':' || sep == '/'
    requires |org| > 0 && |repo| > 0
    requires forall k | 0 <= k < |org| :: IsRemotePartChar(org[k])
    requires forall k | 0 <= k < |repo| :: IsRemotePartChar(repo[k])
    requires rest == "" || !IsRemotePartChar(rest[0])
    requires forall k | 0 <= k < |prefix| :: !StartsAt(line, k, "github.com")
    ensures RemoteOf(line) == Some(org + "/" + repo)
  {
    var p := |prefix|;
    var a := p + 11;
    RemoteLineLayout(line, prefix, sep, org, repo, rest);
    OrgRepoAtIs(line, a, a + |org|, a + |org| + 1 + |repo|);
    SearchFromSkips(line, 0, p);
  }

  lemma {:induction false} PartEndIs(t: string, i: nat, j: nat)
    requires i <= j <= |t|
    requires forall k | i <= k < j :: IsRemotePartChar(t[k])
    requires j == |t| || !IsRemotePartChar(t[j])
    ensures PartEnd(t, i) == j
    decreases j - i
  {
    if i < j {
      PartEndIs(t, i + 1, j);
    }
  }

  lemma {:induction false} SearchFromSkips(t: string, p: nat, q: nat)
    requires p <= q <= |t| && OrgRepoAt(t, q).Some?
    requires forall k | p <= k < q :: OrgRepoAt(t, k).None?
    ensures SearchFrom(t, p) == Some(q)
    decreases q - p
  {
    if p < q {
      SearchFromSkips(t, p + 1, q);
    }
  }

  /**
   * What `find` gives for the first line where it finds something: with
   * `RemoteOf`, the `org_repo` of the first remote line that has a match.
   */
  function FirstFound(lines: seq<string>, find: string -> Option<string>): (r: Option<string>)
    ensures r.None? <==> forall i | 0 <= i < |lines| :: find(lines[i]).None?
  {
    if lines == [] then None
    else if find(lines[0]).Some? then find(lines[0])
    else
      assert forall i | 1 <= i < |lines| :: lines[i] == lines[1..][i - 1];
      FirstFound(lines[1..], find)
  }

  /** The line that counts is the first where something is found; later lines are not looked at. */
  lemma {:induction false} FirstFoundIsFirst(lines: seq<string>, find: string -> Option<string>, i: nat)
    requires i < |lines| && find(lines[i]).Some?
    requires forall j | 0 <= j < i :: find(lines[j]).None?
    ensures FirstFound(lines, find) == find(lines[i])
    decreases i
  {
    if i > 0 {
      assert lines[1..][i - 1] == lines[i];
      FirstFoundIsFirst(lines[1..], find, i - 1);
    }
  }

  predicate IsSlashOrDot(c: char) {
    c == '/' || c == '.'
  }

  /** `f"{org_repo}/{rel_path}".rstrip("/.")` */
  function JoinActionPath(orgRepo: string, relPath: string): (r: string)
    ensures var full := orgRepo + "/" + relPath;
      && |r| <= |full| && r == full[..|r|]
      && (forall i | |r| <= i < |full| :: IsSlashOrDot(full[i]))
      && (|r| > 0 ==> !IsSlashOrDot(r[|r| - 1]))
  {
    TrimEnd(orgRepo + "/" + relPath, IsSlashOrDot)
  }

  /**
   * `get_action_path`, from the text of `git remote -v` and the directory of
   * the action relative to the repository root ("." at the root): the first
   * remote line with a GitHub match gives `org/repo`.
   */
  method GetActionPath(remotes: string, relPath: string) returns (r: Result<string, string>)
    ensures FirstFound(SplitLines(remotes), RemoteOf).None? <==> r == Err(NoRemoteMessage)
    ensures FirstFound(SplitLines(remotes), RemoteOf).Some? ==> r == Ok(JoinActionPath(FirstFound(SplitLines(remotes), RemoteOf).value, relPath))
  {
    var lines := SplitLines(remotes);
    var orgRepo: Option<string> := None;
    var i := 0;
    while i < |lines|
      invariant 0 <= i <= |lines|
      invariant FirstFound(lines, RemoteOf) == FirstFound(lines[i..], RemoteOf)
      decreases |lines| - i
    {
      var found := RemoteOf(lines[i]);
      assert lines[i..][0] == lines[i] && lines[i..][1..] == lines[i + 1..];
      if found.Some? {
        orgRepo := found;
        break;
      }
      i := i + 1;
    }
    if i == |lines| {
      assert lines[i..] == [];
    }
    if orgRepo.None? {
      return Err(NoRemoteMessage);
    }
    r := Ok(JoinActionPath(orgRepo.value, relPath));
  }

  /** At the repository root the relative path is "." and the action path is `org/repo`. */
  lemma ActionPathAtRoot(orgRepo: string)
    requires IsOrgRepo(orgRepo)
    ensures JoinActionPath(orgRepo, ".") == orgRepo
  {
    var i :| 0 < i < |orgRepo| - 1 && orgRepo[i] == '/' && IsOrgRepoSplit(orgRepo, i);
    assert IsRemotePartChar(orgRepo[|orgRepo| - 1]);
    var t := orgRepo + "/" + ".";
    assert t[..|t| - 1] == orgRepo + "/" && (orgRepo + "/")[..|orgRepo|] == orgRepo;
    assert TrimEnd(t, IsSlashOrDot) == TrimEnd(orgRepo + "/", IsSlashOrDot);
    assert TrimEnd(orgRepo + "/", IsSlashOrDot) == TrimEnd(orgRepo, IsSlashOrDot);
  }

  /** In a subdirectory whose name does not end in "/" or ".", the action path is `org/repo/<subdir>`. */
  lemma ActionPathInSubdir(orgRepo: string, relPath: string)
    requires |relPath| > 0 && !IsSlashOrDot(relPath[|relPath| - 1])
    ensures JoinActionPath(orgRepo, relPath) == orgRepo + "/" + relPath
  {
  }

  // ---------------------------------------------------------------------------
  // load_custom_usage_examples

  /** A file in the usage directory: its name and its text. */
  type UsageFile = (string, string)

  function FileName(f: UsageFile): string {
    f.0
  }

  function MissingDirMessage(dir: string): string {
    "Usage dir '" + dir + "' does not exist"
  }

  /** The files `glob("*.md")` picks out: those whose names end in ".md", each as often as it is listed. */
  function MarkdownFiles(files: seq<UsageFile>): (r: seq<UsageFile>)
    ensures forall f :: f in r <==> f in files && EndsWith(f.0, ".md")
    ensures forall f :: multiset(r)[f] == if EndsWith(f.0, ".md") then multiset(files)[f] else 0
    ensures |r| <= |files|
  {
    if files == [] then []
    else
      var rest := MarkdownFiles(files[1..]);
      assert forall f :: f in files <==> f == files[0] || f in files[1..];
      assert files == [files[0]] + files[1..];
      assert multiset(files) == multiset([files[0]]) + multiset(files[1..]);
      if EndsWith(files[0].0, ".md") then [files[0]] + rest else rest
  }

  /** The stripped contents of the files, in order, with the empty ones left out. */
  function Examples(files: seq<UsageFile>): (r: seq<string>)
    ensures |r| <= |files|
  {
    if files == [] then []
    else
      var init := Examples(files[..|files| - 1]);
      var content := Strip(files[|files| - 1].1);
      if content != "" then init + [content] else init
  }

  /** Every example is non-empty and starts and ends with a character that is not whitespace. */
  lemma {:induction false} ExamplesStripped(files: seq<UsageFile>)
    ensures forall s | s in Examples(files) :: StrippedText(s)
    ensures forall s | s in Examples(files) :: exists i | 0 <= i < |files| :: s == Strip(files[i].1)
    decreases |files|
  {
    if files != [] {
      var init := files[..|files| - 1];
      ExamplesStripped(init);
      var content := Strip(files[|files| - 1].1);
      if content != "" {
        assert StrippedText(content);
        assert Examples(files) == Examples(init) + [content];
      }
    }
    ExamplesFromFiles(files);
  }

  /** Each example is the stripped content of one of the files. */
  lemma {:induction false} ExamplesFromFiles(files: seq<UsageFile>)
    ensures forall s | s in Examples(files) :: exists i | 0 <= i < |files| :: s == Strip(files[i].1)
    decreases |files|
  {
    if files != [] {
      var n := |files| - 1;
      var init := files[..n];
      ExamplesFromFiles(init);
      var content := Strip(files[n].1);
      assert Examples(files) == Examples(init) + (if content != "" then [content] else []);
      forall e | e in Examples(files) ensures exists i | 0 <= i < |files| :: e == Strip(files[i].1) {
        if e in Examples(init) {
          var j :| 0 <= j < n && e == Strip(init[j].1);
          assert init[j] == files[j];
        } else {
          assert e == Strip(files[n].1);
        }
      }
    }
  }

  /** Text that is not empty and that `strip()` leaves as it is. */
  predicate StrippedText(s: string) {
    |s| > 0 && !IsSpace(s[0]) && !IsSpace(s[|s| - 1])
  }

  /** A file whose content is only whitespace contributes nothing. */
  lemma ExamplesSkipBlank(files: seq<UsageFile>, f: UsageFile)
    requires forall k | 0 <= k < |f.1| :: IsSpace(f.1[k])
    ensures Examples(files + [f]) == Examples(files)
  {
    assert (files + [f])[..|files|] == files;
  }

  /** Examples keep file order: those of two runs of files are those of the first, then of the second. */
  lemma {:induction false} ExamplesAppend(a: seq<UsageFile>, b: seq<UsageFile>)
    ensures Examples(a + b) == Examples(a) + Examples(b)
    decreases |b|
  {
    if b != [] {
      var b' := b[..|b| - 1];
      assert a + b == (a + b') + [b[|b| - 1]];
      assert (a + b)[..|a + b| - 1] == a + b';
      ExamplesAppend(a, b');
    } else {
      assert a + b == a;
    }
  }

  /** One more file adds its stripped content, unless that is empty. */
  lemma ExamplesStep(files: seq<UsageFile>, i: nat)
    requires i < |files|
    ensures var content := Strip(files[i].1);
      Examples(files[..i + 1]) == Examples(files[..i]) + (if content != "" then [content] else [])
  {
    assert files[..i + 1][..i] == files[..i];
  }

  /** The custom examples of a directory: its Markdown files in name order, stripped, blank ones dropped, a blank line between. */
  function CustomExamples(files: seq<UsageFile>): string {
    Join("\n\n", Examples(SortBy(MarkdownFiles(files), FileName)))
  }

  /** `load_custom_usage_examples`, over whether the directory exists and the files in it. */
  method LoadCustomUsageExamples(dirExists: bool, dir: string, files: seq<UsageFile>) returns (r: Result<string, string>)
    ensures !dirExists ==> r == Err(MissingDirMessage(dir))
    ensures dirExists ==> r == Ok(CustomExamples(files))
  {
    if !dirExists {
      return Err(MissingDirMessage(dir));
    }
    var usageFiles := SortBy(MarkdownFiles(files), FileName);
    var examples: seq<string> := [];
    for i := 0 to |usageFiles|
      invariant examples == Examples(usageFiles[..i])
    {
      ExamplesStep(usageFiles, i);
      var content := Strip(usageFiles[i].1);
      if content != "" {
        examples := examples + [content];
      }
    }
    assert usageFiles[..|usageFiles|] == usageFiles;
    r := Ok(Join("\n\n", examples));
  }

  /** The files taken are exactly the Markdown files, each once per listing, sorted by name. */
  lemma CustomExamplesOrder(files: seq<UsageFile>)
    ensures var taken := SortBy(MarkdownFiles(files), FileName);
      && SortedBy(taken, FileName)
      && (forall f :: f in taken <==> f in files && EndsWith(f.0, ".md"))
      && (forall f :: multiset(taken)[f] == if EndsWith(f.0, ".md") then multiset(files)[f] else 0)
  {
    var md := MarkdownFiles(files);
    var taken := SortBy(md, FileName);
    forall f ensures f in taken <==> f in md {
      assert f in taken <==> f in multiset(taken);
      assert f in md <==> f in multiset(md);
    }
  }
}
