# action-tools, modelled in Dafny

`action-tools` is a command-line helper for GitHub Actions authors. This
project models its deterministic core:

- **`usage`** (`usage.py`): recognise a `uses:` reference `org/repo[/path][@ref]`
  as a reusable workflow or an action, check through the contents API that it
  exists, and list the repositories whose YAML mentions it.
- **The GitHub client** (`github.py`): one GET that raises on a non-2xx status,
  the bounded pagination loop that follows `link: <url>; rel="next"` headers,
  and the contents and code-search endpoints built on them.
- **The data model** (`models.py`): the `Workflow`/`Action` resource, and the
  `ActionInput` validator that rejects a required input with neither a default
  nor an example.
- **The README generator's text** (`gendocs.py`): the usage-example blocks, the
  `org/repo[/dir]` action path taken from the git remotes, and the custom
  examples collected from a directory of Markdown files.

The server, git, and the file system are inputs. The server is a function
from a request (URL and query parameters) to a response (status, body,
optional `link` header). The remote listing and the action's directory
relative to the repository root are text. The usage directory is a flag
saying whether it exists, plus its (file name, content) pairs.

Modules:

| file | module | contents |
|---|---|---|
| `wrappers.dfy` | `Wrappers` | `Option`, `Result` |
| `text.dfy` | `Text` | the `str` builtins used: `startswith`, `split`, `splitlines`, `join`, `strip`, `rstrip`, `isspace` |
| `order.dfy` | `Order` | Python's string order, sorted-set insertion, sort by key |
| `models.dfy` | `Models` | `models.py` |
| `github.dfy` | `GitHub` | `github.py` |
| `usage.dfy` | `Usage` | `usage.py` |
| `gendocs.dfy` | `GenDocs` | the text-building part of `gendocs.py` |

The two regular expressions of `usage.py` are matched by hand:

- `[\w.-]` takes `\w` as ASCII letters, digits and `_`.
- `.` matches any character except "\n".
- `$` matches at the end of the target or just before a final "\n".
- The workflow name `.+` is greedy. The subpath therefore ends at the last `.yaml` or `.yml` that is followed by the end of the target or by `@` and a ref (`Usage.WorkflowSplit`).

Two points of the HTTP layer:

- `Client._get` calls `raise_for_status`, so it raises for every status
  outside 200-299, including 1xx and 3xx.
- `github.py` defines only `ClientError`, which has no status code. `usage.py`
  catches `github.ClientStatusError` and reads its `status_code`, and the tests
  build and inspect that class. The model's error is
  `GitHub.ClientStatusError(statusCode)`, as the callers and the tests expect.

## Model

| member | source | states |
|---|---|---|
| Models.NewActionInput | src/action_tools/models.py:6-18 | fields not given take their declared defaults and the validator runs (stated by Models.FieldDefaults, Models.RequiredWithoutDefaultOrExampleRejected, Models.RequiredWithDefaultOrExampleAccepted and Models.NotRequiredAccepted) |
| Models.NewGitHubAction | src/action_tools/models.py:26-30 | inputs and outputs default to empty (stated by Models.FieldDefaults) |
| Models.CheckRequiredHasDefaultOrExample | src/action_tools/models.py:14-18 | accepts exactly the inputs that are not required or have a default or an example, returning the input unchanged; otherwise fails with "Required input without default must provide an example." |
| Models.RequiredWithoutDefaultOrExampleRejected | src/action_tools/models.py:14-18 | a required input with neither default nor example is rejected with that message |
| Models.RequiredWithDefaultOrExampleAccepted | src/action_tools/models.py:16 | a required input with a default or an example (either one) is accepted as given |
| Models.NotRequiredAccepted | src/action_tools/models.py:16 | an input that is not required is accepted whatever its default and example |
| Models.FieldDefaults | src/action_tools/models.py:9-30 | `required` defaults to false and the other fields to absent; a GitHubAction's inputs and outputs default to empty |
| GitHub.Get | src/action_tools/github.py:32-47 | one GET of the base URL plus the endpoint with the params: the response on a 2xx status, otherwise the status error carrying that status (stated by GitHub.GetFailureCarriesStatus) |
| GitHub.GetFailureCarriesStatus | src/action_tools/github.py:38-46 | a GET fails exactly when the status is not 2xx, and the error carries that status |
| GitHub.NextLink | src/action_tools/github.py:69 | the URL of the first `rel="next"` entry of the header, and none when there is none (stated by GitHub.NextLinkIsFirstMatch, GitHub.EntryRecognised and GitHub.NextLinkSkipsOtherRelations) |
| GitHub.NextLinkStart | src/action_tools/github.py:69 | the leftmost position at or after `i` where `<url>;`, optional whitespace and `rel="next"` match; none when no position matches |
| GitHub.NextLinkAtMatches | src/action_tools/github.py:69 | a match yields a non-empty URL without `>`, written as `<url>;` and followed, after whitespace, by `rel="next"` |
| GitHub.EntryRecognised | src/action_tools/github.py:69 | a link entry `<url>; rel="x"` matches at its `<` exactly when x is `next`, and then gives its URL |
| GitHub.NextLinkIsFirstMatch | src/action_tools/github.py:69 | the header's next link is the URL of the first position that matches |
| GitHub.NextLinkSkipsOtherRelations | src/action_tools/github.py:69 | in `<p>; rel="x", <n>; rel="next"` with x not `next`, the next link is n |
| GitHub.UrlSplitsIntoPathAndQuery | src/action_tools/github.py:70-72 | `scheme://host/path?query` parses to that path and that query, so the scheme and host are dropped |
| GitHub.QueryPairsRoundTrip | src/action_tools/github.py:72 | parsing `k1=v1&k2=v2…` gives back the pairs when keys hold no `=` or `&` and values are non-empty without `&` |
| GitHub.ToParams | src/action_tools/github.py:72 | `dict(pairs)` has exactly the keys of the pairs, and each key maps to the value of its last pair, so a later pair replaces an earlier one |
| GitHub.ParseQuery | src/action_tools/github.py:72 | `dict(parse_qsl(query))`: the dictionary of the query's pairs (stated by GitHub.ParseQueryRoundTrip and GitHub.ToParams) |
| GitHub.ParseQueryRoundTrip | src/action_tools/github.py:72 | a query written as `k1=v1&k2=v2…` parses to the dictionary of those pairs |
| GitHub.NextCursor | src/action_tools/github.py:64-74 | where the next request goes: none without a header, with an empty one or without a next entry; otherwise the path and query parameters of the next URL (stated by GitHub.NextCursorOfEntry and GitHub.CrawlStopsEarly) |
| GitHub.NextCursorOfEntry | src/action_tools/github.py:64-72 | a header opening with `<scheme://host/path?query>; rel="next"` sends the next request to that path with that query's parameters; an absent or empty header ends the crawl |
| GitHub.Crawl | src/action_tools/github.py:49-76 | the pagination as a recursion on the pages left: its requests and its items or error (stated by GitHub.CrawlStep, GitHub.CrawlBounds, GitHub.CrawlChain, GitHub.CrawlFails, GitHub.CrawlLastSucceeded, GitHub.CrawlStopsEarly and GitHub.CrawlItems, and GitHub.Paginate is proved equal to it) |
| GitHub.Paginate | src/action_tools/github.py:49-76 | the loop makes the requests and returns or raises exactly as `Crawl` from the given endpoint and params with `max_pages` pages |
| GitHub.CrawlStep | src/action_tools/github.py:57-74 | one pass: GET the page; raise on error; otherwise take its items and stop when the `link` header names no next page, or continue from the next cursor with one page fewer |
| GitHub.CrawlBounds | src/action_tools/github.py:57-62 | at most `max_pages` requests; none when the endpoint is empty or `max_pages <= 0`; otherwise the first goes to `base_url + endpoint` with the given params |
| GitHub.CrawlChain | src/action_tools/github.py:64-72 | each request after the first is the path and query of the previous page's next link, with the previous params replaced |
| GitHub.CrawlFails | src/action_tools/github.py:38-58 | a crawl that raises does so with the status of its last request, which failed |
| GitHub.CrawlLastSucceeded | src/action_tools/github.py:58-62 | the last request of a crawl that returns succeeded |
| GitHub.CrawlStopsEarly | src/action_tools/github.py:64-74 | a crawl that returns with pages to spare stopped because its last page named no next page |
| GitHub.CrawlItems | src/action_tools/github.py:52-76 | a crawl that returns gives the items of every fetched page concatenated in fetch order; a page without `items` adds nothing |
| GitHub.SearchParams | src/action_tools/github.py:82-86 | the search params are exactly `q` = the query and `per_page` = 100 |
| GitHub.SearchCode | src/action_tools/github.py:82-86 | the crawl from `/search/code`: the first request goes there with `q` and `per_page`, there are at most `max_pages` requests, and a result is the items of all fetched pages |
| GitHub.ContentsEndpoint | src/action_tools/github.py:79 | `/repos/{org}/{repo}/contents{subpath}`: begins with `/repos/`, ends with the subpath, 17 characters plus the three parts long |
| GitHub.GetRepoContents | src/action_tools/github.py:78-80 | one GET of the contents endpoint without params: the listing on a 2xx status, otherwise the status error |
| Usage.MatchWorkflow | src/action_tools/usage.py:9-25 | `WORKFLOW_REGEX.match`: any match is a Workflow (own ensures); what it captures and when it matches are stated by Usage.WorkflowSound, Usage.WorkflowSplit, Usage.WorkflowTargetClassified and Usage.NoWorkflowWithoutExtension |
| Usage.MatchAction | src/action_tools/usage.py:14-31 | `ACTION_REGEX.match`: what it captures and when it matches are stated by Usage.ActionSound and Usage.ActionShapeMatched |
| Usage.ExtEndIs | src/action_tools/usage.py:10 | the extension group matches `.yaml` if it can, else `.yml` |
| Usage.WorkflowSplit | src/action_tools/usage.py:10 | the greedy workflow name ends at the largest position at which an extension and then a ref tail follow; none when no position in the range qualifies |
| Usage.Classify | src/action_tools/usage.py:19-32 | the workflow pattern first, then the action pattern; a target neither fits fails with `target <t> does not appear to be an action or workflow` |
| Usage.NotATargetMessageQuotes | src/action_tools/usage.py:32 | the rejection message is "target " followed by the target verbatim |
| Usage.WorkflowTargetClassified | src/action_tools/usage.py:9-25 | `org/repo/.github/workflows/<name>.yml` or `.yaml`, with or without `@ref`, is the Workflow of org and repo with subpath `/.github/workflows/<name><ext>` (ref dropped, extension kept) |
| Usage.ActionTargetClassified | src/action_tools/usage.py:14-31 | `org/repo` plus zero or more `/segment` parts plus an optional `@ref` is always accepted; it is the Action whose subpath is the segments with their slashes (or "") exactly when the workflow pattern does not match it, which holds when the path does not start with `/.github/workflows/` or holds no `.yml`/`.yaml` |
| Usage.ActionShapeMatched | src/action_tools/usage.py:14-31 | on an action-shaped target the action pattern captures org, repo and the joined segments; classification succeeds, giving that Action exactly when the workflow pattern fails; the workflow pattern fails outside the workflows directory and wherever no extension follows |
| Usage.NoWorkflowWithoutExtension | src/action_tools/usage.py:10 | the workflow pattern cannot match when no `.yml` or `.yaml` follows the repository name |
| Usage.ActionUnderWorkflowsDir | src/action_tools/usage.py:19-31 | `o/r/.github/workflows/sub` is classified as the Action with subpath `/.github/workflows/sub` |
| Usage.BothShapesWorkflowFirst | src/action_tools/usage.py:20-31 | a workflow target whose file name is a segment name fits both patterns and is classified as the Workflow |
| Usage.ClassifySound | src/action_tools/usage.py:9-16 | every success has non-empty `[\w.-]` org and repo and a subpath that is "" or starts with "/", which make up the start of the target with only a ref tail after them; a Workflow's subpath is the workflows directory, a name and `.yml`/`.yaml`; an Action's is `/`-separated names |
| Usage.WorkflowSound | src/action_tools/usage.py:10 | what a workflow match captures, as above |
| Usage.ActionSound | src/action_tools/usage.py:15 | what an action match captures, as above |
| Usage.NoSlashRejected | src/action_tools/usage.py:32 | a target without "/" is rejected with the message naming it |
| Usage.InvalidTargetRejected | src/action_tools/usage.py:32 | `invalid-target` is rejected with the message naming it |
| Usage.StripRef | src/action_tools/usage.py:68 | the longest prefix without "@"; whatever is cut starts at an "@" |
| Usage.StripRefOf | src/action_tools/usage.py:68 | everything from the first "@" on is dropped |
| Usage.StripRefIdempotent | src/action_tools/usage.py:68 | cutting twice is cutting once |
| Usage.UsageResource | src/action_tools/usage.py:68-69 | the target less its `@ref`, classified (stated by Usage.UsageOfActionWithRef and Usage.UsageOfWorkflowWithRef) |
| Usage.UsageOfActionWithRef | src/action_tools/usage.py:68-69 | an action reference with `@ref` is classified as its text without the ref; that is the Action exactly when the workflow pattern does not match, as outside the workflows directory or without an extension |
| Usage.UsageOfWorkflowWithRef | src/action_tools/usage.py:68-69 | a workflow reference with `@ref` is classified as the Workflow without the ref |
| Usage.HasActionFile | src/action_tools/usage.py:47 | true exactly when some entry is named `action.yml` or `action.yaml` |
| Usage.ValidateExistsAsWritten | src/action_tools/usage.py:35-47 | a 404 answers false; any other status error leads to the read of the unbound `contents` |
| Usage.ValidateExists | src/action_tools/usage.py:35-47 | a 404 answers false; any other status error propagates with its status; on a listing, a Workflow exists iff the listing is non-empty and an Action iff an entry is named `action.yml` or `action.yaml` |
| Usage.ValidateExistsAgrees | src/action_tools/usage.py:36-42 | the two agree exactly when the status is 2xx or 404 |
| Usage.ValidateExistsOnServerError | src/action_tools/usage.py:40-42 | on a 500 the code as written fails on the unbound local, where the tests expect the status error |
| Usage.UsageQuery | src/action_tools/usage.py:58 | the query is `"uses: `, the target and `" language:YAML` |
| Usage.RepositoryNames | src/action_tools/usage.py:60-61 | strictly ascending, so duplicate-free, and holding exactly the items' repository full names |
| Usage.RepositoryNamesUnique | src/action_tools/usage.py:60-61 | it is the only ascending list of exactly those names |
| Usage.FindUsage | src/action_tools/usage.py:57-61 | searches for the usage query with the default page limit; on success returns the ascending list of exactly the full names of all items fetched; a search error propagates |
| GenDocs.InputLinesSingle | src/action_tools/gendocs.py:57-62 | a shown value without "\n" gives the single line `    key: value` |
| GenDocs.InputLinesAbsent | src/action_tools/gendocs.py:57 | an absent shown value (example if required, else default) prints as `None` |
| GenDocs.InputLinesBlock | src/action_tools/gendocs.py:58-60 | a value with "\n" gives `    key: |`, then lines prefixed with six spaces that join back to the value less one final "\n" |
| GenDocs.BlockIgnoresTrailingNewline | src/action_tools/gendocs.py:60 | a trailing "\n" adds no empty line |
| GenDocs.UsageLines | src/action_tools/gendocs.py:55-62 | the usage lines of every input in order (stated by GenDocs.InputLinesSingle, GenDocs.InputLinesBlock, GenDocs.InputLinesAbsent, GenDocs.UsageLinesAppend and GenDocs.UsageLinesOnePerInput) |
| GenDocs.UsageLinesAppend | src/action_tools/gendocs.py:56 | the lines follow input order: those of two runs of inputs are those of the first, then of the second |
| GenDocs.UsageLinesOnePerInput | src/action_tools/gendocs.py:55-62 | with single-line values, one `    key: value` line per input, in order |
| GenDocs.ExampleUsage | src/action_tools/gendocs.py:65-73 | the fenced example joined by "\n" (stated by GenDocs.ExampleUsageSplits) |
| GenDocs.ExampleUsageSplits | src/action_tools/gendocs.py:65-73 | the example is the fence, `- uses: <path>`, `  with:`, the usage lines and the closing fence joined by "\n"; it ends with the fence, so there is no final newline |
| GenDocs.Filter | src/action_tools/gendocs.py:94-101 | keeps exactly the inputs the predicate accepts |
| GenDocs.FilterAppend | src/action_tools/gendocs.py:94-101 | filtering keeps the original order |
| GenDocs.MinimalUsageExample | src/action_tools/gendocs.py:91-95 | the example over the required inputs (stated by GenDocs.MinimalExampleLines, GenDocs.Filter and GenDocs.FilterAppend) |
| GenDocs.DefaultsUsageExample | src/action_tools/gendocs.py:98-102 | the example over the inputs that are required or have a non-empty default (stated by GenDocs.DefaultsExampleLines and GenDocs.MinimalWithinDefaults) |
| GenDocs.MinimalExampleLines | src/action_tools/gendocs.py:91-95 | the minimal example's lines hold the usage lines of the required inputs only, in order |
| GenDocs.DefaultsExampleLines | src/action_tools/gendocs.py:98-102 | the defaults example's lines hold the usage lines of the inputs that are required or have a non-empty default, in order |
| GenDocs.MinimalWithinDefaults | src/action_tools/gendocs.py:94-101 | every input of the minimal example is in the defaults example |
| GenDocs.PartEnd | src/action_tools/gendocs.py:12 | a run of `[^/\s.]` characters and where it stops |
| GenDocs.SearchFrom | src/action_tools/gendocs.py:12 | the leftmost position where `github.com[:/]org/repo` matches, or none |
| GenDocs.RemoteOf | src/action_tools/gendocs.py:12-45 | the `org_repo` group of the first `GITHUB_REMOTE_REGEX` match on a line (stated by GenDocs.SearchFrom, GenDocs.RemoteOfSound and GenDocs.RemoteOfLine) |
| GenDocs.RemoteOfSound | src/action_tools/gendocs.py:12 | a match is two non-empty parts free of "/", whitespace and ".", joined by "/" |
| GenDocs.RemoteOfLine | src/action_tools/gendocs.py:12-45 | a line `…github.com:org/repo.git` or `…github.com/org/repo …` yields `org/repo`, with the `.git` suffix dropped |
| GenDocs.FirstFound | src/action_tools/gendocs.py:43-46 | none exactly when no line matches |
| GenDocs.FirstFoundIsFirst | src/action_tools/gendocs.py:43-46 | the first matching line decides |
| GenDocs.GetActionPath | src/action_tools/gendocs.py:42-52 | the loop stops at the first remote line that matches; without one, fails with "No GitHub remote found."; otherwise `org/repo/<dir>` with trailing "/" and "." removed |
| GenDocs.JoinActionPath | src/action_tools/gendocs.py:52 | `org/repo/<dir>` less its longest suffix of "/" and ".": a prefix of it, everything cut is "/" or ".", and what remains does not end in either |
| GenDocs.ActionPathAtRoot | src/action_tools/gendocs.py:51-52 | at the repository root the action path is `org/repo` |
| GenDocs.ActionPathInSubdir | src/action_tools/gendocs.py:52 | in a subdirectory whose name does not end in "/" or "." it is `org/repo/<dir>` |
| GenDocs.MarkdownFiles | src/action_tools/gendocs.py:80 | exactly the files whose names end in `.md`, each as many times as it is listed and so at most once when names are unique, never more files than given |
| GenDocs.Examples | src/action_tools/gendocs.py:83-86 | no more examples than files (own ensures); what each is and their order are stated by GenDocs.ExamplesStripped, GenDocs.ExamplesFromFiles, GenDocs.ExamplesSkipBlank and GenDocs.ExamplesAppend |
| GenDocs.ExamplesStripped | src/action_tools/gendocs.py:84-86 | every example kept is the content of one of the files less its leading and trailing whitespace, non-empty, and neither starts nor ends with whitespace |
| GenDocs.ExamplesFromFiles | src/action_tools/gendocs.py:83-86 | every example kept is the stripped content of one of the example files |
| GenDocs.ExamplesSkipBlank | src/action_tools/gendocs.py:85 | a file holding only whitespace contributes nothing |
| GenDocs.ExamplesAppend | src/action_tools/gendocs.py:83-86 | examples keep file order |
| GenDocs.CustomExamples | src/action_tools/gendocs.py:76-88 | the examples of the `.md` files in name order joined by a blank line (stated by GenDocs.LoadCustomUsageExamples and GenDocs.CustomExamplesOrder) |
| GenDocs.LoadCustomUsageExamples | src/action_tools/gendocs.py:76-88 | a missing directory fails with "Usage dir '<dir>' does not exist"; otherwise the loop yields the stripped, non-empty contents of the `.md` files in name order, joined by a blank line |
| GenDocs.CustomExamplesOrder | src/action_tools/gendocs.py:80 | the files read are exactly the `.md` files, each as many times as it is listed, sorted by name |
| Text.SplitLines | src/action_tools/gendocs.py:60 | `splitlines` on "\n": no line holds "\n" (own ensures), and the lines join back to the text less one final "\n" (stated by Text.SplitLinesJoin) |
| Text.JoinSplit | src/action_tools/gendocs.py:60 | joining the pieces of a split gives back the text |
| Text.SplitLinesJoin | src/action_tools/gendocs.py:60 | `splitlines` loses nothing but one final "\n" |
| Text.Strip | src/action_tools/gendocs.py:84 | the result occurs in the text with only whitespace before and after it, neither starts nor ends with whitespace, and is empty exactly when the text is all whitespace |
| Text.TrimEnd | src/action_tools/gendocs.py:52 | `rstrip`: a prefix of the text, with only dropped characters removed and no dropped character left at the end |
| Order.SortBy | src/action_tools/gendocs.py:80 | sorted by key and a permutation of the input |
| Order.InsertUnique | src/action_tools/usage.py:60-61 | inserting into a strictly ascending list keeps it strictly ascending and adds exactly that name |
| Order.AscendingUnique | src/action_tools/usage.py:61 | two strictly ascending lists with the same elements are equal |

## Left out

- The HTTP transport of `Client._get` is a function from request to response. This covers the httpx client, the `Authorization`/`Accept` headers and JSON decoding. A listing is a sequence of entries with a `name`, and a search hit is an item with a `repository.full_name`.
- `urlparse` and `parse_qsl` are simplified. The URL splits into scheme, `//host`, path, `?query` and `#fragment`. There are no `;params`, no percent-decoding and no `+` to space. The query splits at `&`, and a piece is kept only when it holds `=` and a non-empty value.
- `\w` is ASCII only, where Python's is Unicode. `splitlines` breaks only at "\n".
- The git subprocess, the walk up to the `.git` directory, and `Path.resolve`/`relative_to` are left out. The remote listing and the relative directory are inputs.
- The `glob` and the file reads of `load_custom_usage_examples` are left out. The directory is an existence flag plus (name, content) pairs. Files are sorted by file name only, and every name ending in `.md` counts, dotfiles included.
- YAML loading, Jinja rendering and the file writes of `generate_action_docs` are left out, as is the click command-line layer. In `_usage` that means the echo and the `ClickException` for a missing resource.
- Pydantic's coercion and `extra="allow"` are left out. An `inputs` dict is a sequence of (key, input) pairs, and the model does not exclude duplicate keys.
- The `else` branch of `validate_exists` that raises `ValueError` is left out. It cannot be reached because `Resource` has exactly two constructors.
- Usage.WorkflowTargetClassified: the ref must not contain `.yml` or `.yaml`. Otherwise the greedy name runs on into the ref, and the subpath is not the one named.
- Usage.UsageOfWorkflowWithRef: the file name must not contain "@". `_usage` cuts at the first "@".
- GenDocs.ExampleUsageSplits, GenDocs.MinimalExampleLines, GenDocs.DefaultsExampleLines: stated only for an action path and keys without "\n". With a "\n" in them, the lines of the example are not its "\n"-separated pieces.

## Findings

| source | as written | input that shows it | evidently intended | confidence | as-written member | corrected member |
|---|---|---|---|---|---|---|
| src/action_tools/usage.py:40-42 | a status error other than 404 is caught and not re-raised; the code then reads `contents`, which was never bound, and fails with `UnboundLocalError` | the contents request answered with status 500 | the status error propagates, as the test at tests/test_usage.py:115-124 expects | not executed | Usage.ValidateExistsAsWritten | Usage.ValidateExists |

`Usage.ValidateExistsOnServerError` exhibits the difference on a server that
answers 500. `Usage.ValidateExistsAgrees` shows that this is the only
difference.
