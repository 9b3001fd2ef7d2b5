/**
 * The `usage` command's logic: recognising a `uses:` reference as a
 * reusable workflow or an action, checking that it exists through the
 * contents API, and listing the repositories whose YAML mentions it.
 *
 * The two patterns are matched by hand. `[\w.-]` is read with `\w` as the
 * ASCII letters, digits and `_`; `.` matches anything but "\n", and `$`
 * matches at the end or just before a final "\n".
 */
module Usage {
  import opened Wrappers
  import opened Text
  import opened Models
  import opened GitHub
  import opened Order

  // ---------------------------------------------------------------------------
  // Pieces of the two patterns.

  /** `[\w.-]`: a character of an organisation, repository or path segment name. */
  predicate IsNameChar(c: char) {
    || ('a' <= c <= 'z') || ('A' <= c <= 'Z') || ('0' <= c <= '9')
    || c == '_' || c == '.' || c == '-'
  }

  /** `[\w.-]+` as a whole string. */
  predicate IsName(s: string) {
    |s| > 0 && forall k | 0 <= k < |s| :: IsNameChar(s[k])
  }

  /** Where the run of name characters starting at `i` ends. */
  function NameEnd(t: string, i: nat): (j: nat)
    requires i <= |t|
    ensures i <= j <= |t|
    decreases |t| - i
  {
    if i < |t| && IsNameChar(t[i]) then NameEnd(t, i + 1) else i
  }

  /** `NameEnd` passes only name characters and stops at the first other one. */
  lemma {:induction false} NameEndSpec(t: string, i: nat)
    requires i <= |t|
    ensures forall k | i <= k < NameEnd(t, i) :: IsNameChar(t[k])
    ensures NameEnd(t, i) < |t| ==> !IsNameChar(t[NameEnd(t, i)])
    decreases |t| - i
  {
    if i < |t| && IsNameChar(t[i]) {
      NameEndSpec(t, i + 1);
    }
  }

  lemma {:induction false} NameEndIs(t: string, i: nat, j: nat)
    requires i <= j <= |t|
    requires forall k | i <= k < j :: IsNameChar(t[k])
    requires j == |t| || !IsNameChar(t[j])
    ensures NameEnd(t, i) == j
    decreases j - i
  {
    if i < j {
      NameEndIs(t, i + 1, j);
    }
  }

  /** Where the line holding position `i` ends: the first "\n" at or after `i`, or the end. */
  function LineEnd(t: string, i: nat): (j: nat)
    requires i <= |t|
    ensures i <= j <= |t|
    decreases |t| - i
  {
    if i < |t| && t[i] != '\n' then LineEnd(t, i + 1) else i
  }

  lemma {:induction false} LineEndSpec(t: string, i: nat)
    requires i <= |t|
    ensures forall k | i <= k < LineEnd(t, i) :: t[k] != '\n'
    decreases |t| - i
  {
    if i < |t| && t[i] != '\n' {
      LineEndSpec(t, i + 1);
    }
  }

  lemma {:induction false} LineEndIs(t: string, i: nat)
    requires i <= |t|
    requires forall k | i <= k < |t| :: t[k] != '\n'
    ensures LineEnd(t, i) == |t|
    decreases |t| - i
  {
    if i < |t| {
      LineEndIs(t, i + 1);
    }
  }

  /**
   * `(?:@.+)?$` from position `i`: nothing, or "@" and at least one character,
   * all on the same line; either may be followed by one final "\n".
   */
  predicate RefTail(t: string, i: nat)
    requires i <= |t|
  {
    var end := if i < |t| && t[|t| - 1] == '\n' then |t| - 1 else |t|;
    i == end || (t[i] == '@' && i + 1 < end && LineEnd(t, i + 1) >= end)
  }

  /** What may follow the path in a target: nothing, or `@ref`. */
  function RefSuffix(ref: Option<string>): string {
    match ref
    case None => ""
    case Some(r) => "@" + r
  }

  /** A ref the pattern accepts: at least one character, none of them "\n". */
  predicate IsRef(ref: Option<string>) {
    ref.Some? ==> |ref.value| > 0 && '\n' !in ref.value
  }

  // ---------------------------------------------------------------------------
  // WORKFLOW_REGEX: ^(org)/(repo)(/\.github/workflows/.+\.(yaml|yml))(?:@.+)?$

  const WorkflowsDir := "/.github/workflows/"

  /** The end of a `.yaml` or `.yml` extension starting at `q` (`yaml` is tried first). */
  function ExtEnd(t: string, q: nat): (e: Option<nat>)
    ensures e.Some? ==> q < e.value <= |t|
  {
    if q + 4 <= |t| && t[q] == '.' && t[q + 1] == 'y' then
      if q + 5 <= |t| && t[q + 2] == 'a' && t[q + 3] == 'm' && t[q + 4] == 'l' then Some(q + 5)
      else if t[q + 2] == 'm' && t[q + 3] == 'l' then Some(q + 4)
      else None
    else None
  }

  /** `ExtEnd` finds `.yaml`, else `.yml`, starting at `q`. */
  lemma ExtEndIs(t: string, q: nat)
    ensures ExtEnd(t, q) == if StartsAt(t, q, ".yaml") then Some(q + 5) else if StartsAt(t, q, ".yml") then Some(q + 4) else None
  {
    YamlAt(t, q);
    YmlAt(t, q);
  }

  lemma YamlAt(t: string, q: nat)
    ensures StartsAt(t, q, ".yaml")
      <==> q + 5 <= |t| && t[q] == '.' && t[q + 1] == 'y' && t[q + 2] == 'a' && t[q + 3] == 'm' && t[q + 4] == 'l'
  {
    if q + 5 <= |t| {
      if t[q] == '.' && t[q + 1] == 'y' && t[q + 2] == 'a' && t[q + 3] == 'm' && t[q + 4] == 'l' {
        assert t[q..q + 5] == ".yaml";
      }
      if StartsAt(t, q, ".yaml") {
        StartsAtChars(t, q, ".yaml");
      }
    }
  }

  lemma YmlAt(t: string, q: nat)
    ensures StartsAt(t, q, ".yml")
      <==> q + 4 <= |t| && t[q] == '.' && t[q + 1] == 'y' && t[q + 2] == 'm' && t[q + 3] == 'l'
  {
    if q + 4 <= |t| {
      if t[q] == '.' && t[q + 1] == 'y' && t[q + 2] == 'm' && t[q + 3] == 'l' {
        assert t[q..q + 4] == ".yml";
      }
      if StartsAt(t, q, ".yml") {
        StartsAtChars(t, q, ".yml");
      }
    }
  }

  /** The workflow name may end at `q`: an extension starts there and the rest of the target is a ref tail. */
  predicate WorkflowSplitAt(t: string, q: nat) {
    ExtEnd(t, q).Some? && RefTail(t, ExtEnd(t, q).value)
  }

  /**
   * The greedy `.+` of the workflow name: the largest `q` with `s < q <= top`
   * at which the name may end, trying from `top` downwards.
   */
  function WorkflowSplit(t: string, s: nat, top: nat): (q: Option<nat>)
    ensures q.Some? ==> s < q.value <= top && WorkflowSplitAt(t, q.value)
    ensures q.Some? ==> forall p | q.value < p <= top :: !WorkflowSplitAt(t, p)
    ensures q.None? ==> forall p | s < p <= top :: !WorkflowSplitAt(t, p)
    decreases top
  {
    if top <= s then None
    else if WorkflowSplitAt(t, top) then Some(top)
    else WorkflowSplit(t, s, top - 1)
  }

  lemma WorkflowSplitHere(t: string, s: nat, q: nat)
    requires s < q && WorkflowSplitAt(t, q)
    ensures WorkflowSplit(t, s, q) == Some(q)
  {
  }

  /** Positions above `q` where the name cannot end do not change the search. */
  lemma {:induction false} WorkflowSplitSkips(t: string, s: nat, q: nat, top: nat)
    requires s <= q <= top
    requires forall p | q < p <= top :: !WorkflowSplitAt(t, p)
    ensures WorkflowSplit(t, s, top) == WorkflowSplit(t, s, q)
    decreases top
  {
    if q < top {
      WorkflowSplitSkips(t, s, q, top - 1);
    }
  }

  /** The end of `org`, checked to be followed by "/", and the end of `repo`; none when either is empty. */
  function OrgRepoEnds(t: string): (ends: Option<(nat, nat)>)
    ensures ends.Some? ==> 0 < ends.value.0 < ends.value.1 <= |t|
  {
    var o := NameEnd(t, 0);
    if o == 0 || o == |t| || t[o] != '/' then None
    else
      var r := NameEnd(t, o + 1);
      if r == o + 1 then None else Some((o, r))
  }

  /** `WORKFLOW_REGEX.match(t)`, giving the Workflow its groups name. */
  function MatchWorkflow(t: string): (w: Option<Resource>)
    ensures w.Some? ==> w.value.Workflow?
  {
    match OrgRepoEnds(t)
    case None => None
    case Some((o, r)) =>
      if !StartsAt(t, r, WorkflowsDir) then None
      else
        var s := r + |WorkflowsDir|;
        match WorkflowSplit(t, s, LineEnd(t, s))
        case None => None
        case Some(q) => Some(Workflow(t[..o], t[o + 1..r], t[r..ExtEnd(t, q).value]))
  }

  // ---------------------------------------------------------------------------
  // ACTION_REGEX: ^(org)/(repo)((?:/[\w.-]+)*)(?:@.+)?$

  /** Where the run of `/name` segments starting at `i` ends. */
  function SegmentsEnd(t: string, i: nat): (j: nat)
    requires i <= |t|
    ensures i <= j <= |t|
    decreases |t| - i
  {
    if i < |t| && t[i] == '/' && NameEnd(t, i + 1) > i + 1 then SegmentsEnd(t, NameEnd(t, i + 1)) else i
  }

  /** `ACTION_REGEX.match(t)`, giving the Action its groups name. */
  function MatchAction(t: string): Option<Resource> {
    match OrgRepoEnds(t)
    case None => None
    case Some((o, r)) =>
      var a := SegmentsEnd(t, r);
      if RefTail(t, a) then Some(Action(t[..o], t[o + 1..r], t[r..a])) else None
  }

  // ---------------------------------------------------------------------------
  // classify_target

  function NotATargetMessage(target: string): string {
    "target " + target + " does not appear to be an action or workflow"
  }

  /** The rejection message quotes the target verbatim, after "target ". */
  lemma NotATargetMessageQuotes(target: string)
    ensures StartsAt(NotATargetMessage(target), 0, "target ")
    ensures StartsAt(NotATargetMessage(target), 7, target)
  {
    var m := NotATargetMessage(target);
    assert m == "target " + target + " does not appear to be an action or workflow";
    assert m[..7] == "target ";
    assert m[7..7 + |target|] == target;
  }

  /** `classify_target`: the workflow pattern first, then the action pattern, else a `ValueError`. */
  function Classify(target: string): (r: Result<Resource, string>)
    ensures r.Err? ==> r.error == NotATargetMessage(target)
  {
    match MatchWorkflow(target)
    case Some(w) => Ok(w)
    case None =>
      match MatchAction(target)
      case Some(a) => Ok(a)
      case None => Err(NotATargetMessage(target))
  }

  // ---------------------------------------------------------------------------
  // Targets of each shape are recognised.

  /** What may follow the path as text: nothing, or "@" and a ref without "\n". */
  predicate IsRefSuffix(tail: string) {
    tail == "" || (tail[0] == '@' && |tail| > 1 && '\n' !in tail)
  }

  /** No `.yml` or `.yaml` anywhere in `s`. */
  predicate NoExtensionIn(s: string) {
    forall k | 0 <= k <= |s| :: !StartsAt(s, k, ".yml") && !StartsAt(s, k, ".yaml")
  }

  /** A ref with no `.yml` or `.yaml` in it, so the greedy workflow name cannot extend into it. */
  predicate NoExtension(ref: Option<string>) {
    ref.Some? ==> NoExtensionIn(ref.value)
  }

  lemma RefSuffixShape(ref: Option<string>)
    requires IsRef(ref) && NoExtension(ref)
    ensures IsRefSuffix(RefSuffix(ref)) && NoExtensionIn(RefSuffix(ref))
  {
    if ref.Some? {
      var tail := "@" + ref.value;
      forall k | 0 <= k <= |tail| ensures !StartsAt(tail, k, ".yml") && !StartsAt(tail, k, ".yaml") {
        if k == 0 {
          StartsAtFirst(tail, 0, ".yml");
          StartsAtFirst(tail, 0, ".yaml");
        } else {
          StartsAtShift("@", ref.value, k - 1, ".yml");
          StartsAtShift("@", ref.value, k - 1, ".yaml");
        }
      }
    }
  }

  lemma RefSuffixIsTail(t: string, pre: string, tail: string, i: nat)
    requires t == pre + tail && IsRefSuffix(tail) && i == |pre|
    ensures RefTail(t, i)
  {
    if tail != "" {
      assert t[|t| - 1] == tail[|tail| - 1];
      assert t[|pre|] == '@';
      LineEndAfter(t, pre + "@", tail[1..]);
    }
  }

  /** `org/repo` followed by anything that does not continue the repository name. */
  lemma OrgRepoEndsOf(t: string, org: string, repo: string, rest: string)
    requires t == org + "/" + repo + rest
    requires IsName(org) && IsName(repo)
    requires rest == "" || !IsNameChar(rest[0])
    ensures OrgRepoEnds(t) == Some((|org|, |org| + 1 + |repo|))
  {
    NameEndIs(t, 0, |org|);
    forall k | |org| + 1 <= k < |org| + 1 + |repo| ensures IsNameChar(t[k]) {
      assert t[k] == repo[k - |org| - 1];
    }
    NameEndIs(t, |org| + 1, |org| + 1 + |repo|);
  }

  /** Where the organisation, the repository and the path of a target sit. */
  lemma PartsOfTarget(t: string, org: string, repo: string, path: string, tail: string)
    requires t == org + "/" + repo + path + tail
    ensures t[..|org|] == org
    ensures t[|org| + 1..|org| + 1 + |repo|] == repo
    ensures t[|org| + 1 + |repo|..|org| + 1 + |repo| + |path|] == path
    ensures t[|org| + 1 + |repo| + |path|..] == tail
  {
    assert t == org + ("/" + repo + path + tail);
    assert t == (org + "/") + repo + (path + tail);
    assert t == (org + "/" + repo) + path + tail;
  }

  /** An extension starting after `pre`. */
  lemma ExtensionAt(t: string, pre: string, ext: string, tail: string)
    requires t == pre + ext + tail
    requires ext == ".yml" || ext == ".yaml"
    ensures ExtEnd(t, |pre|) == Some(|pre| + |ext|)
  {
    assert t[|pre|] == '.' && t[|pre| + 1] == 'y' && t[|pre| + 2] == ext[2];
  }

  /** After `pre`, an extension and a ref suffix, the name cannot end later than where the extension starts. */
  lemma NoSplitAfterExtension(t: string, pre: string, ext: string, tail: string)
    requires t == pre + ext + tail
    requires ext == ".yml" || ext == ".yaml"
    requires IsRefSuffix(tail) && NoExtensionIn(tail)
    ensures forall p | |pre| < p <= |t| :: !WorkflowSplitAt(t, p)
  {
    var e := |pre| + |ext|;
    forall p | |pre| < p <= |t| ensures ExtEnd(t, p).None? {
      if p < e {
        assert t[p] == ext[p - |pre|];
      } else if p == e {
        assert p < |t| ==> t[p] == tail[0];
      } else {
        assert t == (pre + ext) + tail;
        ExtEndIs(t, p);
        StartsAtShift(pre + ext, tail, p - e, ".yml");
        StartsAtShift(pre + ext, tail, p - e, ".yaml");
      }
    }
  }

  /** The greedy search from the end of a workflow target stops where its extension starts. */
  lemma WorkflowSplitFound(t: string, s: nat, pre: string, ext: string, tail: string)
    requires t == pre + ext + tail
    requires s < |pre|
    requires ext == ".yml" || ext == ".yaml"
    requires IsRefSuffix(tail) && NoExtensionIn(tail)
    ensures WorkflowSplit(t, s, |t|) == Some(|pre|)
    ensures ExtEnd(t, |pre|) == Some(|pre| + |ext|)
  {
    ExtensionAt(t, pre, ext, tail);
    assert t == (pre + ext) + tail;
    RefSuffixIsTail(t, pre + ext, tail, |pre + ext|);
    NoSplitAfterExtension(t, pre, ext, tail);
    WorkflowSplitSkips(t, s, |pre|, |t|);
    WorkflowSplitHere(t, s, |pre|);
  }

  /** A text free of "\n" after `head` is one line to the end. */
  lemma {:induction false} LineEndAfter(t: string, head: string, u: string)
    requires t == head + u && '\n' !in u
    ensures LineEnd(t, |head|) == |t|
  {
    forall k | |head| <= k < |t| ensures t[k] != '\n' {
      assert t[k] == u[k - |head|];
    }
    LineEndIs(t, |head|);
  }

  /** The same, for three pieces after `head` that are each free of "\n". */
  lemma {:induction false} LineEndAfterParts(t: string, head: string, a: string, b: string, c: string)
    requires t == head + a + b + c
    requires '\n' !in a && '\n' !in b && '\n' !in c
    ensures LineEnd(t, |head|) == |t|
  {
    var u := a + b + c;
    assert t == head + u;
    assert '\n' !in u;
    LineEndAfter(t, head, u);
  }

  lemma MatchWorkflowIs(t: string, o: nat, r: nat, s: nat, l: nat, q: nat, e: nat)
    requires OrgRepoEnds(t) == Some((o, r))
    requires StartsAt(t, r, WorkflowsDir) && s == r + |WorkflowsDir|
    requires LineEnd(t, s) == l && WorkflowSplit(t, s, l) == Some(q) && ExtEnd(t, q) == Some(e)
    ensures MatchWorkflow(t) == Some(Workflow(t[..o], t[o + 1..r], t[r..e]))
  {
  }

  /** A target of the workflow shape: `org/repo/.github/workflows/<name><ext><tail>`. */
  predicate WorkflowShape(t: string, org: string, repo: string, name: string, ext: string, tail: string) {
    && t == org + "/" + repo + WorkflowsDir + name + ext + tail
    && IsName(org) && IsName(repo)
    && |name| > 0 && '\n' !in name
    && (ext == ".yml" || ext == ".yaml")
    && IsRefSuffix(tail) && NoExtensionIn(tail)
  }

  /** In a target of the workflow shape, `org/repo` is followed by the workflows directory. */
  lemma {:induction false} WorkflowShapeHead(t: string, org: string, repo: string, name: string, ext: string, tail: string)
    requires WorkflowShape(t, org, repo, name, ext, tail)
    ensures OrgRepoEnds(t) == Some((|org|, |org| + 1 + |repo|))
    ensures StartsAt(t, |org| + 1 + |repo|, WorkflowsDir)
  {
    var prefix := org + "/" + repo;
    var rest := WorkflowsDir + name + ext + tail;
    assert t == prefix + rest && |prefix| == |org| + 1 + |repo|;
    OrgRepoEndsOf(t, org, repo, rest);
    assert rest == WorkflowsDir + (name + ext + tail);
    StartsAtAppend(WorkflowsDir, name + ext + tail);
    StartsAtShift(prefix, rest, 0, WorkflowsDir);
  }

  /** In a target of the workflow shape, the greedy name ends where the extension starts. */
  lemma {:induction false} WorkflowShapeSplit(t: string, org: string, repo: string, name: string, ext: string, tail: string, s: nat)
    requires WorkflowShape(t, org, repo, name, ext, tail)
    requires s == |org| + 1 + |repo| + |WorkflowsDir|
    ensures LineEnd(t, s) == |t|
    ensures WorkflowSplit(t, s, |t|) == Some(s + |name|)
    ensures ExtEnd(t, s + |name|) == Some(s + |name| + |ext|)
  {
    var head := org + "/" + repo + WorkflowsDir;
    assert |head| == s && |head + name| == s + |name|;
    LineEndAfterParts(t, head, name, ext, tail);
    WorkflowSplitFound(t, |head|, head + name, ext, tail);
  }

  /** In a target of the workflow shape, the three groups are the organisation, the repository and the path. */
  lemma {:induction false} WorkflowShapeParts(t: string, org: string, repo: string, name: string, ext: string, tail: string, r: nat)
    requires WorkflowShape(t, org, repo, name, ext, tail)
    requires r == |org| + 1 + |repo|
    ensures t[..|org|] == org
    ensures t[|org| + 1..r] == repo
    ensures t[r..r + |WorkflowsDir| + |name| + |ext|] == WorkflowsDir + name + ext
  {
    PartsOfTarget(t, org, repo, WorkflowsDir + name + ext, tail);
  }

  /** The workflow pattern on a target of its shape. */
  lemma {:induction false} WorkflowShapeMatched(t: string, org: string, repo: string, name: string, ext: string, tail: string)
    requires WorkflowShape(t, org, repo, name, ext, tail)
    ensures MatchWorkflow(t) == Some(Workflow(org, repo, WorkflowsDir + name + ext))
  {
    var r := |org| + 1 + |repo|;
    WorkflowShapeFound(t, org, repo, name, ext, tail, r, r + |WorkflowsDir| + |name| + |ext|);
    WorkflowShapeParts(t, org, repo, name, ext, tail, r);
  }

  /** Where the workflow pattern's groups end on a target of the workflow shape. */
  lemma {:induction false} WorkflowShapeFound(t: string, org: string, repo: string, name: string, ext: string, tail: string, r: nat, e: nat)
    requires WorkflowShape(t, org, repo, name, ext, tail)
    requires r == |org| + 1 + |repo| && e == r + |WorkflowsDir| + |name| + |ext|
    ensures MatchWorkflow(t) == Some(Workflow(t[..|org|], t[|org| + 1..r], t[r..e]))
  {
    var s := r + |WorkflowsDir|;
    WorkflowShapeHead(t, org, repo, name, ext, tail);
    WorkflowShapeSplit(t, org, repo, name, ext, tail, s);
    MatchWorkflowIs(t, |org|, r, s, |t|, s + |name|, e);
  }

  /**
   * `org/repo/.github/workflows/<name>.yml` or `.yaml`, with or without
   * `@ref`, is the workflow at `/.github/workflows/<name>.<ext>` of
   * `org/repo`: the ref is dropped and the extension kept.
   */
  lemma {:induction false} WorkflowTargetClassified(org: string, repo: string, name: string, ext: string, ref: Option<string>)
    requires IsName(org) && IsName(repo)
    requires |name| > 0 && '\n' !in name
    requires ext == ".yml" || ext == ".yaml"
    requires IsRef(ref) && NoExtension(ref)
    ensures Classify(org + "/" + repo + WorkflowsDir + name + ext + RefSuffix(ref))
      == Ok(Workflow(org, repo, WorkflowsDir + name + ext))
  {
    RefSuffixShape(ref);
    var t := org + "/" + repo + WorkflowsDir + name + ext + RefSuffix(ref);
    assert WorkflowShape(t, org, repo, name, ext, RefSuffix(ref));
    WorkflowShapeMatched(org + "/" + repo + WorkflowsDir + name + ext + RefSuffix(ref), org, repo, name, ext, RefSuffix(ref));
  }

  /** `/n1/n2/...`: the path that the segments of an action target spell. */
  function JoinSegments(names: seq<string>): (p: string)
    ensures names != [] ==> |p| > 0 && p[0] == '/'
  {
    if names == [] then "" else "/" + names[0] + JoinSegments(names[1..])
  }

  predicate AllNames(names: seq<string>) {
    forall i | 0 <= i < |names| :: IsName(names[i])
  }

  /** The run of `/name` segments after `pre` is exactly the joined names when a ref suffix or the end follows. */
  lemma {:induction false} SegmentsEndOf(t: string, pre: string, names: seq<string>, rest: string)
    requires t == pre + JoinSegments(names) + rest
    requires AllNames(names)
    requires rest == "" || rest[0] == '@'
    ensures SegmentsEnd(t, |pre|) == |pre| + |JoinSegments(names)|
    decreases |names|
  {
    if names == [] {
      assert |pre| < |t| ==> t[|pre|] == rest[0];
    } else {
      var n, more := names[0], JoinSegments(names[1..]);
      var pre' := pre + "/" + n;
      assert t == pre' + more + rest;
      var e := |pre'|;
      forall k | |pre| + 1 <= k < e ensures IsNameChar(t[k]) {
        assert t[k] == n[k - |pre| - 1];
      }
      if e < |t| {
        if names[1..] == [] {
          assert t[e] == rest[0];
        } else {
          assert t[e] == more[0];
        }
      }
      NameEndIs(t, |pre| + 1, e);
      assert t[|pre|] == '/';
      SegmentsEndOf(t, pre', names[1..], rest);
    }
  }

  /** A ref suffix is "" or starts with "@" and has no "\n". */
  lemma RefSuffixIsRefSuffix(ref: Option<string>)
    requires IsRef(ref)
    ensures IsRefSuffix(RefSuffix(ref))
  {
    if ref.Some? {
      assert forall k | 1 <= k < |RefSuffix(ref)| :: RefSuffix(ref)[k] == ref.value[k - 1];
    }
  }

  lemma MatchActionAt(t: string, o: nat, r: nat, a: nat)
    requires OrgRepoEnds(t) == Some((o, r))
    requires SegmentsEnd(t, r) == a && IsRefSuffix(t[a..])
    ensures MatchAction(t) == Some(Action(t[..o], t[o + 1..r], t[r..a]))
  {
    assert t == t[..a] + t[a..];
    RefSuffixIsTail(t, t[..a], t[a..], a);
  }

  /** Where the groups of the action pattern sit in a target of its shape. */
  lemma {:induction false} ActionShapeFacts(t: string, org: string, repo: string, names: seq<string>, tail: string)
    requires t == org + "/" + repo + JoinSegments(names) + tail
    requires IsName(org) && IsName(repo) && AllNames(names) && IsRefSuffix(tail)
    ensures |org| + 1 + |repo| + |JoinSegments(names)| <= |t|
    ensures OrgRepoEnds(t) == Some((|org|, |org| + 1 + |repo|))
    ensures SegmentsEnd(t, |org| + 1 + |repo|) == |org| + 1 + |repo| + |JoinSegments(names)|
    ensures t[..|org|] == org && t[|org| + 1..|org| + 1 + |repo|] == repo
    ensures t[|org| + 1 + |repo|..|org| + 1 + |repo| + |JoinSegments(names)|] == JoinSegments(names)
    ensures t[|org| + 1 + |repo| + |JoinSegments(names)|..] == tail
  {
    var path := JoinSegments(names);
    var pre, pre' := org + "/" + repo, org + "/" + repo + path;
    assert |pre| == |org| + 1 + |repo| && |pre'| == |pre| + |path|;
    assert t == org + "/" + repo + (path + tail);
    assert path + tail == "" || (path + tail)[0] == '/' || (path + tail)[0] == '@';
    OrgRepoEndsOf(t, org, repo, path + tail);
    SegmentsEndOf(t, pre, names, tail);
    PartsOfTarget(t, org, repo, path, tail);
  }

  /** The action pattern on a target of its shape. */
  lemma {:induction false} ActionShapeFound(t: string, org: string, repo: string, names: seq<string>, tail: string)
    requires t == org + "/" + repo + JoinSegments(names) + tail
    requires IsName(org) && IsName(repo) && AllNames(names) && IsRefSuffix(tail)
    ensures OrgRepoEnds(t) == Some((|org|, |org| + 1 + |repo|))
    ensures MatchAction(t) == Some(Action(org, repo, JoinSegments(names)))
  {
    var r := |org| + 1 + |repo|;
    ActionShapeFacts(t, org, repo, names, tail);
    MatchActionAt(t, |org|, r, r + |JoinSegments(names)|);
  }

  /**
   * Both patterns on an action target. It is always accepted: as the Action
   * unless the workflow pattern matches first, which needs the workflows
   * directory at the start of the path and an extension after it.
   */
  lemma {:induction false} ActionShapeMatched(t: string, org: string, repo: string, names: seq<string>, tail: string)
    requires t == org + "/" + repo + JoinSegments(names) + tail
    requires IsName(org) && IsName(repo) && AllNames(names) && IsRefSuffix(tail)
    ensures MatchAction(t) == Some(Action(org, repo, JoinSegments(names)))
    ensures Classify(t).Ok?
    ensures MatchWorkflow(t).None? <==> Classify(t) == Ok(Action(org, repo, JoinSegments(names)))
    ensures !StartsAt(JoinSegments(names) + tail, 0, WorkflowsDir) ==> MatchWorkflow(t) == None
    ensures NoExtensionIn(JoinSegments(names) + tail) ==> MatchWorkflow(t) == None
  {
    var pre := org + "/" + repo;
    ActionShapeFound(t, org, repo, names, tail);
    assert t == pre + (JoinSegments(names) + tail) && |pre| == |org| + 1 + |repo|;
    NoWorkflowAfter(t, pre, JoinSegments(names) + tail, |org|, Action(org, repo, JoinSegments(names)));
  }

  /**
   * After `org/repo`, a target the action pattern matches is that Action
   * unless the workflow pattern matches, and that one does not when the path
   * does not start with the workflows directory or holds no extension.
   */
  lemma NoWorkflowAfter(t: string, pre: string, rest: string, o: nat, a: Resource)
    requires t == pre + rest && OrgRepoEnds(t) == Some((o, |pre|))
    requires MatchAction(t) == Some(a) && a.Action?
    ensures Classify(t).Ok?
    ensures MatchWorkflow(t).None? <==> Classify(t) == Ok(a)
    ensures !StartsAt(rest, 0, WorkflowsDir) ==> MatchWorkflow(t) == None
    ensures NoExtensionIn(rest) ==> MatchWorkflow(t) == None
  {
    ClassifyAction(t, a);
    if !StartsAt(rest, 0, WorkflowsDir) {
      StartsAtShift(pre, rest, 0, WorkflowsDir);
      NoWorkflowAt(t, o, |pre|);
    }
    if NoExtensionIn(rest) {
      assert t[|pre|..] == rest;
      NoWorkflowWithoutExtension(t, o, |pre|);
    }
  }

  /** A target the action pattern matches is accepted, as that Action unless the workflow pattern matched first. */
  lemma ClassifyAction(t: string, a: Resource)
    requires MatchAction(t) == Some(a) && a.Action?
    ensures Classify(t).Ok?
    ensures MatchWorkflow(t).None? <==> Classify(t) == Ok(a)
  {
  }

  lemma NoWorkflowAt(t: string, o: nat, r: nat)
    requires OrgRepoEnds(t) == Some((o, r)) && !StartsAt(t, r, WorkflowsDir)
    ensures MatchWorkflow(t) == None
  {
  }

  /** No extension starts where the text after `r` has none. */
  lemma NoExtAfter(t: string, r: nat, p: nat)
    requires r <= p <= |t| && NoExtensionIn(t[r..])
    ensures ExtEnd(t, p).None?
  {
    ExtEndIs(t, p);
    var u := t[r..];
    assert !StartsAt(u, p - r, ".yml") && !StartsAt(u, p - r, ".yaml");
    assert t == t[..r] + u;
    StartsAtShift(t[..r], u, p - r, ".yml");
    StartsAtShift(t[..r], u, p - r, ".yaml");
  }

  lemma NoSplitAt(t: string, o: nat, r: nat, s: nat)
    requires OrgRepoEnds(t) == Some((o, r)) && s == r + |WorkflowsDir|
    requires StartsAt(t, r, WorkflowsDir) ==> WorkflowSplit(t, s, LineEnd(t, s)).None?
    ensures MatchWorkflow(t) == None
  {
  }

  /** Without `.yml` or `.yaml` after the repository, the workflow name has nowhere to end. */
  lemma {:induction false} NoWorkflowWithoutExtension(t: string, o: nat, r: nat)
    requires OrgRepoEnds(t) == Some((o, r)) && NoExtensionIn(t[r..])
    ensures MatchWorkflow(t) == None
  {
    var s := r + |WorkflowsDir|;
    if StartsAt(t, r, WorkflowsDir) {
      var top := LineEnd(t, s);
      forall p | s < p <= top ensures !WorkflowSplitAt(t, p) {
        NoExtAfter(t, r, p);
      }
      assert WorkflowSplit(t, s, top).None?;
    }
    NoSplitAt(t, o, r, s);
  }

  /**
   * `org/repo` followed by zero or more `/segment` parts and an optional
   * `@ref` is accepted, and it is the Action whose subpath is the segments
   * with their slashes exactly when the workflow pattern does not match it.
   * That is so when the path does not start with the workflows directory, and
   * when no `.yml` or `.yaml` follows the repository.
   */
  lemma {:induction false} ActionTargetClassified(org: string, repo: string, names: seq<string>, ref: Option<string>)
    requires IsName(org) && IsName(repo) && AllNames(names) && IsRef(ref)
    ensures Classify(org + "/" + repo + JoinSegments(names) + RefSuffix(ref)).Ok?
    ensures MatchWorkflow(org + "/" + repo + JoinSegments(names) + RefSuffix(ref)).None?
      <==> Classify(org + "/" + repo + JoinSegments(names) + RefSuffix(ref)) == Ok(Action(org, repo, JoinSegments(names)))
    ensures !StartsAt(JoinSegments(names) + RefSuffix(ref), 0, WorkflowsDir) || NoExtensionIn(JoinSegments(names) + RefSuffix(ref))
      ==> Classify(org + "/" + repo + JoinSegments(names) + RefSuffix(ref)) == Ok(Action(org, repo, JoinSegments(names)))
  {
    RefSuffixIsRefSuffix(ref);
    ActionShapeMatched(org + "/" + repo + JoinSegments(names) + RefSuffix(ref), org, repo, names, RefSuffix(ref));
  }

  /** Text without a "y" holds no `.yml` or `.yaml`. */
  lemma NoExtensionWithoutY(s: string)
    requires 'y' !in s
    ensures NoExtensionIn(s)
  {
    forall k | 0 <= k <= |s| ensures !StartsAt(s, k, ".yml") && !StartsAt(s, k, ".yaml") {
      if k + 4 <= |s| {
        assert s[k..k + 4][1] == s[k + 1];
      }
    }
  }

  /** `/.github/workflows/sub` as segments: names, with no extension in them. */
  lemma WorkflowsDirSub()
    ensures JoinSegments([".github", "workflows", "sub"]) == WorkflowsDir + "sub"
    ensures AllNames([".github", "workflows", "sub"])
    ensures NoExtensionIn(JoinSegments([".github", "workflows", "sub"]) + RefSuffix(None))
  {
    assert IsName("sub") by {
      forall k | 0 <= k < 3 ensures IsNameChar("sub"[k]) {
      }
    }
    WorkflowSegments("sub");
    var path := WorkflowsDir + "sub";
    assert 'y' !in path;
    NoExtensionWithoutY(path);
    assert RefSuffix(None) == "" && path + "" == path;
  }

  /** A path under the workflows directory that names no workflow file is an Action: `o/r/.github/workflows/sub`. */
  lemma ActionUnderWorkflowsDir()
    ensures Classify("o/r" + WorkflowsDir + "sub") == Ok(Action("o", "r", WorkflowsDir + "sub"))
  {
    WorkflowsDirSub();
    WorkflowsDirSubTarget();
    assert IsName("o") && IsName("r");
    ActionTargetClassified("o", "r", [".github", "workflows", "sub"], None);
  }

  lemma WorkflowsDirSubTarget()
    requires JoinSegments([".github", "workflows", "sub"]) == WorkflowsDir + "sub"
    ensures "o" + "/" + "r" + JoinSegments([".github", "workflows", "sub"]) + RefSuffix(None) == "o/r" + WorkflowsDir + "sub"
  {
    assert "o" + "/" + "r" == "o/r" && RefSuffix(None) == "";
    assert "o/r" + (WorkflowsDir + "sub") + "" == "o/r" + WorkflowsDir + "sub";
  }

  /** The workflows directory and a file name, as segments. */
  lemma {:induction false} WorkflowSegments(file: string)
    requires IsName(file)
    ensures JoinSegments([".github", "workflows", file]) == WorkflowsDir + file
    ensures AllNames([".github", "workflows", file])
  {
    var names := [".github", "workflows", file];
    assert names[1..] == ["workflows", file] && names[1..][1..] == [file] && [file][1..] == [];
    assert JoinSegments([file]) == "/" + file;
    assert JoinSegments(names[1..]) == "/workflows" + ("/" + file);
    assert JoinSegments(names) == "/.github" + ("/workflows" + ("/" + file));
    assert IsName(".github") by {
      forall k | 0 <= k < 7 ensures IsNameChar(".github"[k]) {
      }
    }
    assert IsName("workflows") by {
      forall k | 0 <= k < 9 ensures IsNameChar("workflows"[k]) {
      }
    }
  }

  /** A workflow target whose file name is a segment name fits the action pattern too. */
  lemma {:induction false} BothShapesMatchAction(t: string, org: string, repo: string, name: string, ext: string, tail: string)
    requires WorkflowShape(t, org, repo, name, ext, tail) && IsName(name)
    ensures MatchAction(t) == Some(Action(org, repo, WorkflowsDir + name + ext))
  {
    forall k | 0 <= k < |name + ext| ensures IsNameChar((name + ext)[k]) {
      if k >= |name| {
        assert (name + ext)[k] == ext[k - |name|];
      }
    }
    var file := name + ext;
    WorkflowSegments(file);
    assert WorkflowsDir + name + ext == WorkflowsDir + file;
    assert t == org + "/" + repo + (WorkflowsDir + file) + tail;
    ActionShapeFound(t, org, repo, [".github", "workflows", file], tail);
  }

  /**
   * A workflow target whose file name is also a segment name fits both
   * patterns; it is classified as a Workflow, because that pattern is tried first.
   */
  lemma {:induction false} BothShapesWorkflowFirst(org: string, repo: string, name: string, ext: string, ref: Option<string>)
    requires IsName(org) && IsName(repo) && IsName(name)
    requires ext == ".yml" || ext == ".yaml"
    requires IsRef(ref) && NoExtension(ref)
    ensures var t := org + "/" + repo + WorkflowsDir + name + ext + RefSuffix(ref);
      && MatchAction(t) == Some(Action(org, repo, WorkflowsDir + name + ext))
      && Classify(t) == Ok(Workflow(org, repo, WorkflowsDir + name + ext))
  {
    var t := org + "/" + repo + WorkflowsDir + name + ext + RefSuffix(ref);
    RefSuffixShape(ref);
    assert '\n' !in name by {
      assert forall k | 0 <= k < |name| :: IsNameChar(name[k]);
    }
    assert WorkflowShape(t, org, repo, name, ext, RefSuffix(ref));
    WorkflowShapeMatched(t, org, repo, name, ext, RefSuffix(ref));
    BothShapesMatchAction(t, org, repo, name, ext, RefSuffix(ref));
  }

  // ---------------------------------------------------------------------------
  // What a successful classification guarantees.

  /** `(?:/[\w.-]+)*` as a whole string: "" or "/" names, each "/" followed by a name character. */
  predicate IsSegmentPath(s: string) {
    && (s == "" || s[0] == '/')
    && (forall k | 0 <= k < |s| :: s[k] == '/' || IsNameChar(s[k]))
    && (forall k | 0 <= k < |s| && s[k] == '/' :: k + 1 < |s| && IsNameChar(s[k + 1]))
  }

  lemma {:induction false} SegmentsEndSpec(t: string, i: nat)
    requires i <= |t|
    ensures i < SegmentsEnd(t, i) ==> t[i] == '/'
    ensures forall k | i <= k < SegmentsEnd(t, i) :: t[k] == '/' || IsNameChar(t[k])
    ensures forall k | i <= k < SegmentsEnd(t, i) && t[k] == '/' :: k + 1 < SegmentsEnd(t, i) && IsNameChar(t[k + 1])
    decreases |t| - i
  {
    if i < |t| && t[i] == '/' && NameEnd(t, i + 1) > i + 1 {
      NameEndSpec(t, i + 1);
      SegmentsEndSpec(t, NameEnd(t, i + 1));
    }
  }

  /** The organisation and repository groups are non-empty names, separated by "/". */
  lemma OrgRepoEndsSound(t: string)
    requires OrgRepoEnds(t).Some?
    ensures var (o, r) := OrgRepoEnds(t).value;
      IsName(t[..o]) && t[o] == '/' && IsName(t[o + 1..r])
  {
    var (o, r) := OrgRepoEnds(t).value;
    NameEndSpec(t, 0);
    NameEndSpec(t, o + 1);
    assert forall k | 0 <= k < o :: t[..o][k] == t[k];
    var repo := t[o + 1..r];
    assert forall k | 0 <= k < |repo| :: repo[k] == t[o + 1 + k];
  }

  /** The three groups put back together are the start of the target. */
  lemma Reassemble(t: string, o: nat, r: nat, e: nat)
    requires 0 < o < r <= e <= |t| && t[o] == '/'
    ensures t[..e] == t[..o] + "/" + t[o + 1..r] + t[r..e]
  {
    assert t[..e] == t[..o] + t[o..e];
    assert t[o..e] == [t[o]] + t[o + 1..r] + t[r..e];
  }

  /** The start of the target is `org/repo/subpath` and only a ref tail follows. */
  predicate Reassembles(t: string, res: Resource) {
    var n := |res.org| + 1 + |res.repo| + |res.subpath|;
    n <= |t| && t[..n] == res.org + "/" + res.repo + res.subpath && RefTail(t, n)
  }

  /** A Workflow's path is the workflows directory, a name and a `.yml` or `.yaml` extension. */
  predicate IsWorkflowPath(p: string) {
    && |p| >= |WorkflowsDir| + 5
    && StartsAt(p, 0, WorkflowsDir)
    && (EndsWith(p, ".yml") || EndsWith(p, ".yaml"))
  }

  lemma {:induction false} WorkflowSound(t: string)
    requires MatchWorkflow(t).Some?
    ensures var w := MatchWorkflow(t).value;
      && w.Workflow? && IsName(w.org) && IsName(w.repo)
      && IsWorkflowPath(w.subpath) && Reassembles(t, w)
  {
    var (o, r) := OrgRepoEnds(t).value;
    var s := r + |WorkflowsDir|;
    var q := WorkflowSplit(t, s, LineEnd(t, s)).value;
    var e := ExtEnd(t, q).value;
    var w := MatchWorkflow(t).value;
    assert w == Workflow(t[..o], t[o + 1..r], t[r..e]);
    OrgRepoEndsSound(t);
    Reassemble(t, o, r, e);
    WorkflowPathAt(t, r, q, e);
  }

  /** The text from the workflows directory to the end of an extension after it is a workflow path. */
  lemma {:induction false} WorkflowPathAt(t: string, r: nat, q: nat, e: nat)
    requires r + |WorkflowsDir| < q && StartsAt(t, r, WorkflowsDir)
    requires ExtEnd(t, q) == Some(e)
    ensures IsWorkflowPath(t[r..e])
  {
    var p := t[r..e];
    assert p[..|WorkflowsDir|] == t[r..r + |WorkflowsDir|];
    ExtEndIs(t, q);
    if e == q + 5 {
      assert p[|p| - 5..] == t[q..e];
    } else {
      assert p[|p| - 4..] == t[q..e];
    }
  }

  lemma {:induction false} ActionSound(t: string)
    requires MatchAction(t).Some?
    ensures var a := MatchAction(t).value;
      && a.Action? && IsName(a.org) && IsName(a.repo)
      && IsSegmentPath(a.subpath) && Reassembles(t, a)
  {
    var (o, r) := OrgRepoEnds(t).value;
    var e := SegmentsEnd(t, r);
    OrgRepoEndsSound(t);
    Reassemble(t, o, r, e);
    SegmentsEndSpec(t, r);
    var p := t[r..e];
    assert forall k | 0 <= k < |p| :: p[k] == t[r + k];
  }

  /**
   * Every successful classification has non-empty `[\w.-]` organisation and
   * repository names and a subpath that is empty or starts with "/"; the three
   * make up the start of the target and only a ref tail follows them.
   */
  lemma ClassifySound(t: string)
    ensures Classify(t).Ok? ==>
      var res := Classify(t).value;
      && IsName(res.org) && IsName(res.repo)
      && (res.subpath == "" || res.subpath[0] == '/')
      && Reassembles(t, res)
      && (res.Workflow? ==> IsWorkflowPath(res.subpath))
      && (res.Action? ==> IsSegmentPath(res.subpath))
  {
    if MatchWorkflow(t).Some? {
      WorkflowSound(t);
    } else if MatchAction(t).Some? {
      ActionSound(t);
    }
  }

  /** A target without "/" fits neither pattern. */
  lemma NoSlashRejected(t: string)
    requires '/' !in t
    ensures Classify(t) == Err(NotATargetMessage(t))
  {
    assert OrgRepoEnds(t) == None;
  }

  lemma InvalidTargetRejected()
    ensures Classify("invalid-target") == Err(NotATargetMessage("invalid-target"))
  {
    var t := "invalid-target";
    assert '/' !in t by {
      forall k | 0 <= k < |t| ensures t[k] != '/' {
      }
    }
    NoSlashRejected(t);
  }

  // ---------------------------------------------------------------------------
  // _usage: the ref is cut off at the first "@" before classifying.

  /** `target.partition("@")[0]`: the target up to its first "@", or all of it. */
  function StripRef(target: string): (r: string)
    ensures |r| <= |target| && r == target[..|r|] && '@' !in r
    ensures |r| < |target| ==> target[|r|] == '@'
  {
    IndexFromSpec(target, '@', 0);
    var r := target[..IndexFrom(target, '@', 0)];
    assert forall k | 0 <= k < |r| :: r[k] == target[k];
    r
  }

  /** A target without "@" is kept whole. */
  lemma StripRefNoAt(target: string)
    requires '@' !in target
    ensures StripRef(target) == target
  {
    IndexFromStopsAt(target, '@', 0, |target|);
  }

  /** Everything from the first "@" on is dropped. */
  lemma StripRefOf(base: string, ref: string)
    requires '@' !in base
    ensures StripRef(base + "@" + ref) == base
  {
    var t := base + "@" + ref;
    forall k | 0 <= k < |base| ensures t[k] != '@' {
      assert t[k] == base[k];
    }
    IndexFromStopsAt(t, '@', 0, |base|);
    assert t[..|base|] == base;
  }

  lemma StripRefIdempotent(target: string)
    ensures StripRef(StripRef(target)) == StripRef(target)
  {
    StripRefNoAt(StripRef(target));
  }

  /** What `_usage` classifies: the target with its ref cut off. */
  function UsageResource(target: string): Result<Resource, string> {
    Classify(StripRef(target))
  }

  /** Name characters include no "@". */
  lemma NoAtInTarget(org: string, repo: string, names: seq<string>)
    requires IsName(org) && IsName(repo) && AllNames(names)
    ensures '@' !in org + "/" + repo + JoinSegments(names)
    decreases |names|
  {
    assert forall k | 0 <= k < |org| :: IsNameChar(org[k]);
    assert forall k | 0 <= k < |repo| :: IsNameChar(repo[k]);
    NoAtInSegments(names);
  }

  lemma {:induction false} NoAtInSegments(names: seq<string>)
    requires AllNames(names)
    ensures '@' !in JoinSegments(names)
    decreases |names|
  {
    if names != [] {
      assert forall k | 0 <= k < |names[0]| :: IsNameChar(names[0][k]);
      NoAtInSegments(names[1..]);
    }
  }

  /** An action target without a ref. */
  lemma ActionWithoutRef(t: string, org: string, repo: string, names: seq<string>)
    requires t == org + "/" + repo + JoinSegments(names)
    requires IsName(org) && IsName(repo) && AllNames(names)
    ensures MatchWorkflow(t).None? <==> Classify(t) == Ok(Action(org, repo, JoinSegments(names)))
    ensures !StartsAt(JoinSegments(names), 0, WorkflowsDir) || NoExtensionIn(JoinSegments(names))
      ==> Classify(t) == Ok(Action(org, repo, JoinSegments(names)))
  {
    assert JoinSegments(names) + "" == JoinSegments(names);
    ActionShapeMatched(t, org, repo, names, "");
  }

  /**
   * `_usage` on an action reference with a ref: the ref is dropped, and the
   * rest is the Action exactly when the workflow pattern does not match it.
   */
  lemma UsageOfActionWithRef(org: string, repo: string, names: seq<string>, ref: string)
    requires IsName(org) && IsName(repo) && AllNames(names)
    ensures UsageResource(org + "/" + repo + JoinSegments(names) + "@" + ref)
      == Classify(org + "/" + repo + JoinSegments(names))
    ensures MatchWorkflow(org + "/" + repo + JoinSegments(names)).None?
      <==> UsageResource(org + "/" + repo + JoinSegments(names) + "@" + ref) == Ok(Action(org, repo, JoinSegments(names)))
    ensures !StartsAt(JoinSegments(names), 0, WorkflowsDir) || NoExtensionIn(JoinSegments(names))
      ==> UsageResource(org + "/" + repo + JoinSegments(names) + "@" + ref) == Ok(Action(org, repo, JoinSegments(names)))
  {
    var base := org + "/" + repo + JoinSegments(names);
    NoAtInTarget(org, repo, names);
    StripRefOf(base, ref);
    ActionWithoutRef(base, org, repo, names);
  }

  /** A workflow target without a ref. */
  lemma WorkflowWithoutRef(t: string, org: string, repo: string, name: string, ext: string)
    requires t == org + "/" + repo + WorkflowsDir + name + ext
    requires IsName(org) && IsName(repo)
    requires |name| > 0 && '\n' !in name
    requires ext == ".yml" || ext == ".yaml"
    ensures Classify(t) == Ok(Workflow(org, repo, WorkflowsDir + name + ext))
  {
    assert t == org + "/" + repo + WorkflowsDir + name + ext + "";
    assert NoExtensionIn("");
    WorkflowShapeMatched(t, org, repo, name, ext, "");
  }

  /**
   * `_usage` on a workflow reference with a ref, whose file name has no "@":
   * the ref is dropped and the rest is classified as the Workflow.
   */
  lemma UsageOfWorkflowWithRef(org: string, repo: string, name: string, ext: string, ref: string)
    requires IsName(org) && IsName(repo)
    requires |name| > 0 && '\n' !in name && '@' !in name
    requires ext == ".yml" || ext == ".yaml"
    ensures UsageResource(org + "/" + repo + WorkflowsDir + name + ext + "@" + ref)
      == Ok(Workflow(org, repo, WorkflowsDir + name + ext))
  {
    var base := org + "/" + repo + WorkflowsDir + name + ext;
    NoAtInTarget(org, repo, []);
    assert '@' !in WorkflowsDir by {
      forall k | 0 <= k < |WorkflowsDir| ensures WorkflowsDir[k] != '@' {
      }
    }
    assert '@' !in ext by {
      forall k | 0 <= k < |ext| ensures ext[k] != '@' {
      }
    }
    assert '@' !in base;
    StripRefOf(base, ref);
    WorkflowWithoutRef(base, org, repo, name, ext);
  }

  // ---------------------------------------------------------------------------
  // validate_exists

  /** How `validate_exists` fails instead of answering. */
  datatype ExistsFailure =
    | Raised(error: ClientStatusError)
    | UnboundContents

  /** The file names that make a directory an action. */
  const ActionFileNames: set<string> := {"action.yml", "action.yaml"}

  /** `any(file["name"] in {"action.yml", "action.yaml"} for file in contents)` */
  function HasActionFile(contents: seq<Entry>): (b: bool)
    ensures b <==> exists i | 0 <= i < |contents| :: contents[i].name in ActionFileNames
  {
    if contents == [] then false
    else if contents[0].name in ActionFileNames then true
    else
      var b := HasActionFile(contents[1..]);
      assert forall i | 1 <= i < |contents| :: contents[i] == contents[1..][i - 1];
      b
  }

  /** What a listing that was fetched says: a workflow file exists when the listing is non-empty, an action when it holds an action file. */
  function Found(resource: Resource, contents: seq<Entry>): bool {
    match resource
    case Workflow(_, _, _) => |contents| > 0
    case Action(_, _, _) => HasActionFile(contents)
  }

  /**
   * `validate_exists` as written: a 404 answers false, and any other status
   * error is caught and not re-raised, so the following read of `contents`
   * fails with an unbound local.
   */
  function ValidateExistsAsWritten(client: Client, server: Request -> Response<seq<Entry>>, resource: Resource): (r: Result<bool, ExistsFailure>)
    ensures var status := server(Request(client.baseUrl + ContentsEndpoint(resource.org, resource.repo, resource.subpath), map[])).status;
      && (status == 404 ==> r == Ok(false))
      && (!IsSuccess(status) && status != 404 ==> r == Err(UnboundContents))
  {
    match GetRepoContents(client, server, resource.org, resource.repo, resource.subpath)
    case Err(e) => if e.statusCode == 404 then Ok(false) else Err(UnboundContents)
    case Ok(contents) => Ok(Found(resource, contents))
  }

  /**
   * `validate_exists` as its tests expect: a 404 answers false, any other
   * status error propagates, and a listing answers whether the resource is there.
   */
  function ValidateExists(client: Client, server: Request -> Response<seq<Entry>>, resource: Resource): (r: Result<bool, ExistsFailure>)
    ensures var response := server(Request(client.baseUrl + ContentsEndpoint(resource.org, resource.repo, resource.subpath), map[]));
      && (response.status == 404 ==> r == Ok(false))
      && (!IsSuccess(response.status) && response.status != 404 ==> r == Err(Raised(ClientStatusError(response.status))))
      && (IsSuccess(response.status) && resource.Workflow? ==> r == Ok(|response.body| > 0))
      && (IsSuccess(response.status) && resource.Action? ==>
            r == Ok(exists i | 0 <= i < |response.body| :: response.body[i].name in ActionFileNames))
  {
    match GetRepoContents(client, server, resource.org, resource.repo, resource.subpath)
    case Err(e) => if e.statusCode == 404 then Ok(false) else Err(Raised(e))
    case Ok(contents) => Ok(Found(resource, contents))
  }

  /** The two differ only on a status error other than 404. */
  lemma ValidateExistsAgrees(client: Client, server: Request -> Response<seq<Entry>>, resource: Resource)
    ensures var status := server(Request(client.baseUrl + ContentsEndpoint(resource.org, resource.repo, resource.subpath), map[])).status;
      (IsSuccess(status) || status == 404) <==> ValidateExistsAsWritten(client, server, resource) == ValidateExists(client, server, resource)
  {
  }

  /** A server answering 500: the code as written fails on the unbound local instead of raising the status error. */
  lemma ValidateExistsOnServerError(client: Client, resource: Resource)
    ensures var server := (request: Request) => Response(500, [], None);
      && ValidateExistsAsWritten(client, server, resource) == Err(UnboundContents)
      && ValidateExists(client, server, resource) == Err(Raised(ClientStatusError(500)))
  {
  }

  // ---------------------------------------------------------------------------
  // find_usage

  datatype Repository = Repository(fullName: string)

  /** A code search hit; only `repository.full_name` is read. */
  datatype SearchItem = SearchItem(repository: Repository)

  /** `f'"uses: {target}" language:YAML'` */
  function UsageQuery(target: string): (q: string)
    ensures |q| == |target| + 22
    ensures StartsAt(q, 0, "\"uses: ") && StartsAt(q, 7, target) && EndsWith(q, "\" language:YAML")
  {
    var q := "\"uses: " + target + "\" language:YAML";
    assert q[..7] == "\"uses: " && q[7..7 + |target|] == target && q[|q| - 15..] == "\" language:YAML";
    q
  }

  /** The repositories the items name. */
  function FullNames(items: seq<SearchItem>): set<string> {
    set i | 0 <= i < |items| :: items[i].repository.fullName
  }

  /** `sorted({item["repository"]["full_name"] for item in items})` */
  function RepositoryNames(items: seq<SearchItem>): (r: seq<string>)
    ensures StrictlyAscending(r)
    ensures forall n :: n in r <==> n in FullNames(items)
  {
    if items == [] then []
    else
      var last := |items| - 1;
      var r := InsertUnique(items[last].repository.fullName, RepositoryNames(items[..last]));
      assert forall i | 0 <= i < last :: items[..last][i] == items[i];
      r
  }

  /** The repository list depends only on which names occur: any ascending list of exactly those names is it. */
  lemma RepositoryNamesUnique(items: seq<SearchItem>, names: seq<string>)
    requires StrictlyAscending(names)
    requires forall n :: n in names <==> n in FullNames(items)
    ensures RepositoryNames(items) == names
  {
    AscendingUnique(RepositoryNames(items), names);
  }

  /**
   * `find_usage`: search for `"uses: <target>" language:YAML` and list the
   * repositories of the hits, sorted and without duplicates.
   */
  method FindUsage(client: Client, server: Request -> Response<PageBody<SearchItem>>, target: string)
    returns (r: Result<seq<string>, ClientStatusError>, ghost requests: seq<Request>)
    ensures var crawl := Crawl(client, server, NextCursor, SearchEndpoint, SearchParams(UsageQuery(target)), DefaultMaxPages);
      && requests == crawl.requests
      && (crawl.outcome.Err? ==> r == Err(crawl.outcome.error))
      && (crawl.outcome.Ok? ==> r == Ok(RepositoryNames(crawl.outcome.value)))
    ensures 0 < |requests| <= DefaultMaxPages
    ensures requests[0] == Request(client.baseUrl + SearchEndpoint, SearchParams(UsageQuery(target)))
    ensures r.Ok? ==> StrictlyAscending(r.value)
    ensures r.Ok? ==> forall n :: n in r.value <==> n in FullNames(AllItems(server, requests))
  {
    var items;
    items, requests := SearchCode(client, server, UsageQuery(target));
    match items
    case Err(e) =>
      r := Err(e);
    case Ok(found) =>
      r := Ok(RepositoryNames(found));
  }
}
