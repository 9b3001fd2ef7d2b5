/**
 * The GitHub REST API client: one GET per call, failing on any non-2xx
 * status, and the bounded loop that follows `link: <url>; rel="next"`
 * headers across the pages of a search.
 *
 * The HTTP exchange itself is a parameter: a `server` function from the
 * request (full URL and query parameters) to the response (status, decoded
 * JSON body, `link` header). Authentication and `Accept` headers are not
 * modelled, so the client's token plays no part.
 */
module GitHub {
  import opened Wrappers
  import opened Text

  const DefaultBaseUrl := "https://api.github.com"
  /** `MAX_PER_PAGE`, the page size requested from the search API, as the query string carries it. */
  const MaxPerPage := "100"
  const DefaultMaxPages := 10
  const SearchEndpoint := "/search/code"

  /** Query parameters: a dictionary, so a later value for a key replaces an earlier one. */
  type Params = map<string, string>

  datatype Client = Client(token: string, baseUrl: string)

  /** `Client(token, base_url="https://api.github.com")` */
  function NewClient(token: string, baseUrl: string := DefaultBaseUrl): Client {
    Client(token, baseUrl)
  }

  datatype Request = Request(url: string, params: Params)

  /** A response: status code, decoded JSON body and the `link` header if present. */
  datatype Response<B> = Response(status: int, body: B, link: Option<string>)

  /** An entry of a contents listing; only its `name` is read. */
  datatype Entry = Entry(name: string)

  /** The JSON object of a search page: its `items` array, which may be missing. */
  datatype PageBody<T> = PageBody(items: Option<seq<T>>)

  /**
   * The error a non-2xx response raises, carrying the numeric status.
   * github.py (lines 8-17 and 42-46) defines only `ClientError`, which has no
   * `status_code`, while usage.py catches `github.ClientStatusError` and reads
   * `status_code`, and the tests construct and inspect that class. The model
   * follows the callers and the tests: the error carries the status code.
   */
  datatype ClientStatusError = ClientStatusError(statusCode: int)

  /** The statuses `raise_for_status` lets through. */
  predicate IsSuccess(status: int) {
    200 <= status < 300
  }

  /** `Client._get`: one GET of `base_url + endpoint`; any non-2xx response raises. */
  function Get<B>(client: Client, server: Request -> Response<B>, endpoint: string, params: Params): (r: Result<Response<B>, ClientStatusError>)
  {
    var response := server(Request(client.baseUrl + endpoint, params));
    if IsSuccess(response.status) then Ok(response) else Err(ClientStatusError(response.status))
  }

  /** A failed GET reports exactly the status the server answered with, 404 included. */
  lemma GetFailureCarriesStatus<B>(client: Client, server: Request -> Response<B>, endpoint: string, params: Params)
    ensures var status := server(Request(client.baseUrl + endpoint, params)).status;
      Get(client, server, endpoint, params).Err? <==> !IsSuccess(status)
    ensures var status := server(Request(client.baseUrl + endpoint, params)).status;
      Get(client, server, endpoint, params).Err? ==> Get(client, server, endpoint, params).error.statusCode == status
  {
  }

  // ---------------------------------------------------------------------------
  // The `link` header: `<(?P<next_url>[^>]+)>;\s*rel="next"`, searched for.

  const NextRel := "rel=\"next\""

  /** The first index at or after `i` holding `c`, or `|t|`. */
  function IndexFrom(t: string, c: char, i: nat): (j: nat)
    requires i <= |t|
    ensures i <= j <= |t|
    decreases |t| - i
  {
    if i == |t| || t[i] == c then i else IndexFrom(t, c, i + 1)
  }

  /** `IndexFrom` skips only other characters and stops at `c` or at the end. */
  lemma {:induction false} IndexFromSpec(t: string, c: char, i: nat)
    requires i <= |t|
    ensures forall k | i <= k < IndexFrom(t, c, i) :: t[k] != c
    ensures IndexFrom(t, c, i) < |t| ==> t[IndexFrom(t, c, i)] == c
    decreases |t| - i
  {
    if i < |t| && t[i] != c {
      IndexFromSpec(t, c, i + 1);
    }
  }

  lemma IndexFromStopsAt(t: string, c: char, i: nat, j: nat)
    requires i <= j <= |t|
    requires forall k | i <= k < j :: t[k] != c
    requires j == |t| || t[j] == c
    ensures IndexFrom(t, c, i) == j
    decreases j - i
  {
    if i < j {
      IndexFromStopsAt(t, c, i + 1, j);
    }
  }

  /** The end of the run of whitespace starting at `i`: where `\s*` stops. */
  function SkipSpaces(t: string, i: nat): (j: nat)
    requires i <= |t|
    ensures i <= j <= |t|
    decreases |t| - i
  {
    if i < |t| && IsSpace(t[i]) then SkipSpaces(t, i + 1) else i
  }

  /**
   * The `next_url` of a match starting at `i`, if one does. `[^>]+` runs to
   * the first `>`, so the URL is everything up to it.
   */
  function NextLinkAt(h: string, i: nat): Option<string>
    requires i <= |h|
  {
    if i < |h| && h[i] == '<' then
      var close := IndexFrom(h, '>', i + 1);
      if i + 1 < close < |h| - 1 && h[close + 1] == ';' && StartsAt(h, SkipSpaces(h, close + 2), NextRel) then
        Some(h[i + 1..close])
      else
        None
    else
      None
  }

  /** Where `re.search` finds its match: the least index at or after `i` where one starts. */
  function NextLinkStart(h: string, i: nat): (r: Option<nat>)
    requires i <= |h|
    ensures r.Some? ==> i <= r.value <= |h| && NextLinkAt(h, r.value).Some?
    ensures r.Some? ==> forall j | i <= j < r.value :: NextLinkAt(h, j).None?
    ensures r.None? ==> forall j | i <= j <= |h| :: NextLinkAt(h, j).None?
    decreases |h| - i
  {
    if NextLinkAt(h, i).Some? then Some(i)
    else if i == |h| then None
    else NextLinkStart(h, i + 1)
  }

  /** The URL of the first `rel="next"` entry of a `link` header, if any. */
  function NextLink(h: string): (r: Option<string>)
  {
    match NextLinkStart(h, 0)
    case Some(k) => NextLinkAt(h, k)
    case None => None
  }

  /** `SkipSpaces` passes only whitespace and stops at a non-space or at the end. */
  lemma {:induction false} SkipSpacesSpec(t: string, i: nat)
    requires i <= |t|
    ensures forall k | i <= k < SkipSpaces(t, i) :: IsSpace(t[k])
    ensures SkipSpaces(t, i) < |t| ==> !IsSpace(t[SkipSpaces(t, i)])
    decreases |t| - i
  {
    if i < |t| && IsSpace(t[i]) {
      SkipSpacesSpec(t, i + 1);
    }
  }

  lemma SkipSpacesStopsAt(h: string, i: nat, j: nat)
    requires i <= j < |h|
    requires forall k | i <= k < j :: IsSpace(h[k])
    requires !IsSpace(h[j])
    ensures SkipSpaces(h, i) == j
    decreases j - i
  {
    if i < j {
      SkipSpacesStopsAt(h, i + 1, j);
    }
  }

  /** What a match at `i` consists of: `<`, a non-empty URL free of `>`, `>;`, whitespace, `rel="next"`. */
  lemma NextLinkAtMatches(h: string, i: nat)
    requires i <= |h| && NextLinkAt(h, i).Some?
    ensures var url := NextLinkAt(h, i).value;
      && |url| > 0 && '>' !in url
      && StartsAt(h, i, "<" + url + ">;")
      && StartsAt(h, SkipSpaces(h, i + |url| + 3), NextRel)
  {
    var close := IndexFrom(h, '>', i + 1);
    IndexFromSpec(h, '>', i + 1);
    var url := h[i + 1..close];
    assert h[i..i + |url| + 3] == "<" + url + ">;";
    forall c | c in url ensures c != '>' {
      var k :| 0 <= k < |url| && url[k] == c;
      assert url[k] == h[i + 1 + k];
    }
  }

  /** One entry of a `link` header: `<url>;`, whitespace, `rel="rel"`. */
  function LinkEntry(url: string, ws: string, rel: string): string {
    "<" + url + ">;" + ws + "rel=\"" + rel + "\""
  }

  /** `<url>;`: `[^>]+` stops at the `>` right after `url`. */
  lemma EntryHead(h: string, i: nat, url: string)
    requires |url| > 0 && '>' !in url
    requires StartsAt(h, i, "<" + url + ">;")
    ensures i + |url| + 3 <= |h| && h[i] == '<' && h[i + 2 + |url|] == ';'
    ensures IndexFrom(h, '>', i + 1) == i + 1 + |url|
    ensures h[i + 1..i + 1 + |url|] == url
  {
    var head := "<" + url + ">;";
    StartsAtChars(h, i, head);
    forall k | i + 1 <= k < i + 1 + |url| ensures h[k] != '>' {
      assert h[k] == head[k - i] == url[k - i - 1];
    }
    assert h[i + 1 + |url|] == head[1 + |url|] == '>';
    IndexFromStopsAt(h, '>', i + 1, i + 1 + |url|);
    assert h[i + 1..i + 1 + |url|] == head[1..1 + |url|] == url;
  }

  /** Whitespace `ws` followed by text starting with a non-space: `\s*` consumes exactly `ws`. */
  lemma EntryGap(h: string, j: nat, ws: string, tail: string)
    requires forall k | 0 <= k < |ws| :: IsSpace(ws[k])
    requires |tail| > 0 && !IsSpace(tail[0])
    requires StartsAt(h, j, ws + tail)
    ensures SkipSpaces(h, j) == j + |ws|
    ensures StartsAt(h, j + |ws|, tail)
  {
    StartsAtSplit(h, j, ws, tail);
    StartsAtChars(h, j, ws);
    StartsAtChars(h, j + |ws|, tail);
    forall k | j <= k < j + |ws| ensures IsSpace(h[k]) {
      assert h[k] == ws[k - j];
    }
    SkipSpacesStopsAt(h, j, j + |ws|);
  }

  /** How the pattern reads an entry: `[^>]+` stops at its `>`, `\s*` stops at its `rel`. */
  lemma EntryParts(h: string, i: nat, url: string, ws: string, rel: string)
    requires |url| > 0 && '>' !in url
    requires forall k | 0 <= k < |ws| :: IsSpace(ws[k])
    requires StartsAt(h, i, LinkEntry(url, ws, rel))
    ensures i + |url| + 3 <= |h| && h[i] == '<' && h[i + 2 + |url|] == ';'
    ensures IndexFrom(h, '>', i + 1) == i + 1 + |url|
    ensures h[i + 1..i + 1 + |url|] == url
    ensures SkipSpaces(h, i + 3 + |url|) == i + 3 + |url| + |ws|
    ensures StartsAt(h, i + 3 + |url| + |ws|, "rel=\"" + rel + "\"")
  {
    var head := "<" + url + ">;";
    var tail := "rel=\"" + rel + "\"";
    assert LinkEntry(url, ws, rel) == head + (ws + tail);
    StartsAtSplit(h, i, head, ws + tail);
    EntryHead(h, i, url);
    EntryGap(h, i + |head|, ws, tail);
  }

  /** A quoted relation free of quotes reads as `rel="next"` exactly when it is `next`. */
  lemma RelationIsNext(h: string, j: nat, rel: string)
    requires '"' !in rel
    requires StartsAt(h, j, "rel=\"" + rel + "\"")
    ensures StartsAt(h, j, NextRel) <==> rel == "next"
  {
    var tail := "rel=\"" + rel + "\"";
    StartsAtChars(h, j, tail);
    if rel == "next" {
      assert tail == NextRel;
    } else if |rel| >= 5 {
      assert h[j + 9] == tail[9] == rel[4] != '"';
      MismatchAt(h, j, NextRel, 9);
    } else if |rel| < 4 {
      assert h[j + 5 + |rel|] == tail[5 + |rel|] == '"';
      MismatchAt(h, j, NextRel, 5 + |rel|);
    } else {
      var m :| 0 <= m < 4 && rel[m] != "next"[m];
      assert h[j + 5 + m] == tail[5 + m] == rel[m];
      MismatchAt(h, j, NextRel, 5 + m);
    }
  }

  /** A differing character rules out a match. */
  lemma MismatchAt(t: string, i: nat, w: string, k: nat)
    requires k < |w| && i + k < |t| && t[i + k] != w[k]
    ensures !StartsAt(t, i, w)
  {
    if StartsAt(t, i, w) {
      StartsAtChars(t, i, w);
    }
  }

  /**
   * An entry is a match exactly when its relation is `next`, and then the
   * followed URL is the entry's.
   */
  lemma EntryRecognised(h: string, i: nat, url: string, ws: string, rel: string)
    requires |url| > 0 && '>' !in url && '"' !in rel
    requires forall k | 0 <= k < |ws| :: IsSpace(ws[k])
    requires StartsAt(h, i, LinkEntry(url, ws, rel))
    ensures NextLinkAt(h, i) == if rel == "next" then Some(url) else None
  {
    EntryParts(h, i, url, ws, rel);
    RelationIsNext(h, i + 3 + |url| + |ws|, rel);
  }

  /** The search finds `k` when a match starts there and none starts before it. */
  lemma {:induction false} NextLinkStartIs(h: string, i: nat, k: nat)
    requires i <= k <= |h|
    requires forall j | i <= j < k :: NextLinkAt(h, j).None?
    requires NextLinkAt(h, k).Some?
    ensures NextLinkStart(h, i) == Some(k)
    decreases k - i
  {
    if i < k {
      assert NextLinkAt(h, i).None?;
      NextLinkStartIs(h, i + 1, k);
    }
  }

  /** No match starts at a character other than `<`. */
  lemma NoMatchWithoutOpen(h: string, i: nat, x: string)
    requires StartsAt(h, i, x) && '<' !in x
    ensures forall j | i <= j < i + |x| :: NextLinkAt(h, j).None?
  {
    StartsAtChars(h, i, x);
    forall j | i <= j < i + |x| ensures NextLinkAt(h, j).None? {
      assert h[j] == x[j - i];
      assert x[j - i] in x;
    }
  }

  /** Past its opening `<`, an entry holds no `<` when its URL and relation hold none. */
  lemma EntryOpensOnce(url: string, ws: string, rel: string)
    requires '<' !in url && '<' !in rel
    requires forall k | 0 <= k < |ws| :: IsSpace(ws[k])
    ensures LinkEntry(url, ws, rel) == "<" + LinkEntry(url, ws, rel)[1..]
    ensures '<' !in LinkEntry(url, ws, rel)[1..]
  {
    var b := url + ">;" + ws + "rel=\"" + rel + "\"";
    assert LinkEntry(url, ws, rel) == "<" + b;
    assert LinkEntry(url, ws, rel)[1..] == b;
    assert '<' !in ws by {
      forall k | 0 <= k < |ws| ensures ws[k] != '<' {
        assert IsSpace(ws[k]);
      }
    }
  }

  /** `re.search` returns the first match: the URL at `k` when no match starts before it. */
  lemma NextLinkIsFirstMatch(h: string, k: nat, url: string)
    requires k <= |h|
    requires forall j | 0 <= j < k :: NextLinkAt(h, j).None?
    requires NextLinkAt(h, k) == Some(url)
    ensures NextLink(h) == Some(url)
  {
    NextLinkStartIs(h, 0, k);
  }

  /** A leading entry with another relation, and the ", " after it, start no match. */
  lemma OtherEntryNoMatch(h: string, p: string, rel: string)
    requires |p| > 0 && '<' !in p && '>' !in p
    requires '<' !in rel && '"' !in rel && rel != "next"
    requires StartsAt(h, 0, LinkEntry(p, " ", rel) + ", ")
    ensures forall j | 0 <= j < |LinkEntry(p, " ", rel)| + 2 :: NextLinkAt(h, j).None?
  {
    var e := LinkEntry(p, " ", rel);
    StartsAtSplit(h, 0, e, ", ");
    EntryRecognised(h, 0, p, " ", rel);
    EntryOpensOnce(p, " ", rel);
    assert e + ", " == "<" + (e[1..] + ", ");
    StartsAtSplit(h, 0, "<", e[1..] + ", ");
    NoMatchWithoutOpen(h, 1, e[1..] + ", ");
  }

  /**
   * Entries with other relations are skipped: in `<p>; rel="prev", <n>; rel="next"`
   * the followed URL is `n`.
   */
  lemma NextLinkSkipsOtherRelations(p: string, rel: string, n: string)
    requires |p| > 0 && |n| > 0
    requires '<' !in p && '>' !in p && '>' !in n
    requires '<' !in rel && '"' !in rel && rel != "next"
    ensures NextLink(LinkEntry(p, " ", rel) + ", " + LinkEntry(n, " ", "next")) == Some(n)
  {
    var first := LinkEntry(p, " ", rel) + ", ";
    var second := LinkEntry(n, " ", "next");
    var h := first + second;
    StartsAtAppend(first, second);
    OtherEntryNoMatch(h, p, rel);
    EntryRecognised(h, |first|, n, " ", "next");
    NextLinkIsFirstMatch(h, |first|, n);
  }

  // ---------------------------------------------------------------------------
  // `urlparse(url).path` and `.query`, and `dict(parse_qsl(query))`.

  predicate IsAsciiLetter(c: char) {
    'a' <= c <= 'z' || 'A' <= c <= 'Z'
  }

  predicate IsSchemeChar(c: char) {
    IsAsciiLetter(c) || '0' <= c <= '9' || c == '+' || c == '-' || c == '.'
  }

  /** The URL after its scheme and ':', when it has one: text before the first ':' that starts with a letter and holds only scheme characters. */
  function AfterScheme(u: string): string {
    var colon := IndexFrom(u, ':', 0);
    if 0 < colon < |u| && IsAsciiLetter(u[0]) && forall k | 0 <= k < colon :: IsSchemeChar(u[k]) then
      u[colon + 1..]
    else
      u
  }

  /** The first index at or after `i` holding '/', '?' or '#', or `|s|`: where the network location ends. */
  function NetlocEnd(s: string, i: nat): (j: nat)
    requires i <= |s|
    ensures i <= j <= |s|
    decreases |s| - i
  {
    if i == |s| || s[i] == '/' || s[i] == '?' || s[i] == '#' then i else NetlocEnd(s, i + 1)
  }

  /** `NetlocEnd` passes only characters other than '/', '?' and '#', and stops at one of them or at the end. */
  lemma {:induction false} NetlocEndSpec(s: string, i: nat)
    requires i <= |s|
    ensures forall k | i <= k < NetlocEnd(s, i) :: s[k] != '/' && s[k] != '?' && s[k] != '#'
    ensures NetlocEnd(s, i) < |s| ==> s[NetlocEnd(s, i)] in "/?#"
    decreases |s| - i
  {
    if i < |s| && s[i] != '/' && s[i] != '?' && s[i] != '#' {
      NetlocEndSpec(s, i + 1);
    }
  }

  lemma NetlocEndStopsAt(s: string, i: nat, j: nat)
    requires i <= j <= |s|
    requires forall k | i <= k < j :: s[k] != '/' && s[k] != '?' && s[k] != '#'
    requires j == |s| || s[j] == '/' || s[j] == '?' || s[j] == '#'
    ensures NetlocEnd(s, i) == j
    decreases j - i
  {
    if i < j {
      NetlocEndStopsAt(s, i + 1, j);
    }
  }

  /** The URL reduced to its path and query: scheme, `//netloc` and `#fragment` removed. */
  function PathAndQuery(u: string): string {
    var s := AfterScheme(u);
    var s := if StartsAt(s, 0, "//") then s[NetlocEnd(s, 2)..] else s;
    s[..IndexFrom(s, '#', 0)]
  }

  /** `urlparse(u).path` */
  function UrlPath(u: string): string {
    var s := PathAndQuery(u);
    s[..IndexFrom(s, '?', 0)]
  }

  /** `urlparse(u).query` */
  function UrlQuery(u: string): string {
    var s := PathAndQuery(u);
    var q := IndexFrom(s, '?', 0);
    if q < |s| then s[q + 1..] else ""
  }

  /** A scheme of letters, digits, `+`, `-` and `.` that starts with a letter is removed with its `:`. */
  lemma AfterSchemeIs(scheme: string, rest: string)
    requires |scheme| > 0 && IsAsciiLetter(scheme[0]) && forall k | 0 <= k < |scheme| :: IsSchemeChar(scheme[k])
    ensures AfterScheme(scheme + ":" + rest) == rest
  {
    var u := scheme + ":" + rest;
    forall k | 0 <= k < |scheme| ensures u[k] != ':' && IsSchemeChar(u[k]) {
      assert u[k] == scheme[k];
    }
    IndexFromStopsAt(u, ':', 0, |scheme|);
    assert u[|scheme| + 1..] == rest;
  }

  /** After `//`, the network location runs up to the first '/', '?' or '#', which starts the rest. */
  lemma NetlocDropped(host: string, tail: string)
    requires forall k | 0 <= k < |host| :: host[k] != '/' && host[k] != '?' && host[k] != '#'
    requires tail == "" || tail[0] == '/' || tail[0] == '?' || tail[0] == '#'
    ensures var s := "//" + host + tail; StartsAt(s, 0, "//") && s[NetlocEnd(s, 2)..] == tail
  {
    var s := "//" + host + tail;
    assert s[..2] == "//";
    forall k | 2 <= k < 2 + |host| ensures s[k] != '/' && s[k] != '?' && s[k] != '#' {
      assert s[k] == host[k - 2];
    }
    if tail != "" {
      assert s[2 + |host|] == tail[0];
    }
    NetlocEndStopsAt(s, 2, 2 + |host|);
    assert s[2 + |host|..] == tail;
  }

  /** Text without '#' has no fragment to cut. */
  lemma NoFragment(s: string)
    requires '#' !in s
    ensures s[..IndexFrom(s, '#', 0)] == s
  {
    IndexFromStopsAt(s, '#', 0, |s|);
  }

  /** `path?query` splits at its first '?' when the path has none. */
  lemma QuerySplit(path: string, query: string)
    requires '?' !in path
    ensures var s := path + "?" + query;
      var q := IndexFrom(s, '?', 0);
      q < |s| && s[..q] == path && s[q + 1..] == query
  {
    var s := path + "?" + query;
    forall k | 0 <= k < |path| ensures s[k] != '?' {
      assert s[k] == path[k];
    }
    assert s[|path|] == '?';
    IndexFromStopsAt(s, '?', 0, |path|);
    assert s[..|path|] == path;
    assert s[|path| + 1..] == query;
  }

  /** Scheme, `//host` and (absent) fragment removed, an absolute URL leaves its path and query. */
  lemma PathAndQueryIs(scheme: string, host: string, tail: string)
    requires |scheme| > 0 && IsAsciiLetter(scheme[0]) && forall k | 0 <= k < |scheme| :: IsSchemeChar(scheme[k])
    requires forall k | 0 <= k < |host| :: host[k] != '/' && host[k] != '?' && host[k] != '#'
    requires tail == "" || tail[0] == '/' || tail[0] == '?'
    requires '#' !in tail
    ensures PathAndQuery(scheme + ":" + ("//" + host + tail)) == tail
  {
    AfterSchemeIs(scheme, "//" + host + tail);
    NetlocDropped(host, tail);
    NoFragment(tail);
  }

  /** An absolute URL `scheme://host/path?query` splits back into its path and its query. */
  lemma UrlSplitsIntoPathAndQuery(scheme: string, host: string, path: string, query: string)
    requires |scheme| > 0 && IsAsciiLetter(scheme[0]) && forall k | 0 <= k < |scheme| :: IsSchemeChar(scheme[k])
    requires forall k | 0 <= k < |host| :: host[k] != '/' && host[k] != '?' && host[k] != '#'
    requires path == "" || path[0] == '/'
    requires '?' !in path && '#' !in path && '#' !in query
    ensures UrlPath(scheme + "://" + host + path + "?" + query) == path
    ensures UrlQuery(scheme + "://" + host + path + "?" + query) == query
  {
    var tail := path + "?" + query;
    assert scheme + "://" + host + path + "?" + query == scheme + ":" + ("//" + host + tail);
    assert tail[0] == if path == "" then '?' else path[0];
    PathAndQueryIs(scheme, host, tail);
    QuerySplit(path, query);
  }

  /** One `name=value` piece of a query string; pieces without '=' or with an empty value are dropped. */
  function QueryPair(piece: string): Option<(string, string)> {
    var eq := IndexFrom(piece, '=', 0);
    if eq >= |piece| - 1 then None else Some((piece[..eq], piece[eq + 1..]))
  }

  function QueryPairsOf(pieces: seq<string>): seq<(string, string)> {
    if pieces == [] then []
    else
      (match QueryPair(pieces[0]) case Some(p) => [p] case None => []) + QueryPairsOf(pieces[1..])
  }

  /** `parse_qsl(query)`: the pairs of the '&'-separated pieces, in order. */
  function QueryPairs(query: string): seq<(string, string)> {
    QueryPairsOf(Split(query, '&'))
  }

  /** `dict(pairs)`: a later pair for a key replaces an earlier one. */
  function ToParams(pairs: seq<(string, string)>): (m: Params)
    ensures forall k :: k in m <==> exists i | 0 <= i < |pairs| :: pairs[i].0 == k
    ensures forall k | k in m :: exists i | 0 <= i < |pairs| :: pairs[i] == (k, m[k]) && forall j | i < j < |pairs| :: pairs[j].0 != k
  {
    if pairs == [] then map[]
    else
      var n := |pairs| - 1;
      var m := ToParams(pairs[..n]);
      LaterPairWins(pairs, m);
      m[pairs[n].0 := pairs[n].1]
  }

  /** Adding the last pair to the dictionary of the others keeps each key at the value of its last pair. */
  lemma LaterPairWins(pairs: seq<(string, string)>, m: Params)
    requires |pairs| > 0
    requires var init := pairs[..|pairs| - 1];
      forall k | k in m :: exists i | 0 <= i < |init| :: init[i] == (k, m[k]) && forall j | i < j < |init| :: init[j].0 != k
    ensures var r := m[pairs[|pairs| - 1].0 := pairs[|pairs| - 1].1];
      forall k | k in r :: exists i | 0 <= i < |pairs| :: pairs[i] == (k, r[k]) && forall j | i < j < |pairs| :: pairs[j].0 != k
  {
    var n := |pairs| - 1;
    var init := pairs[..n];
    assert forall i | 0 <= i < n :: init[i] == pairs[i];
    var r := m[pairs[n].0 := pairs[n].1];
    forall k | k in r
      ensures exists i | 0 <= i < |pairs| :: pairs[i] == (k, r[k]) && forall j | i < j < |pairs| :: pairs[j].0 != k
    {
      if k == pairs[n].0 {
        assert pairs[n] == (k, r[k]);
      } else {
        var i :| 0 <= i < n && init[i] == (k, m[k]) && forall j | i < j < n :: init[j].0 != k;
        assert pairs[i] == (k, r[k]);
      }
    }
  }

  /** `dict(parse_qsl(query))` */
  function ParseQuery(query: string): Params {
    ToParams(QueryPairs(query))
  }

  function Piece(p: (string, string)): string {
    p.0 + "=" + p.1
  }

  function Pieces(pairs: seq<(string, string)>): (r: seq<string>)
    ensures |r| == |pairs|
    ensures forall i | 0 <= i < |pairs| :: r[i] == Piece(pairs[i])
  {
    if pairs == [] then [] else [Piece(pairs[0])] + Pieces(pairs[1..])
  }

  /** A query written as `k1=v1&k2=v2&...` parses back into its pairs, when keys hold no '=' or '&' and values are non-empty without '&'. */
  lemma {:induction false} QueryPairsRoundTrip(pairs: seq<(string, string)>)
    requires forall i | 0 <= i < |pairs| :: '=' !in pairs[i].0 && '&' !in pairs[i].0
    requires forall i | 0 <= i < |pairs| :: |pairs[i].1| > 0 && '&' !in pairs[i].1
    ensures QueryPairs(Join("&", Pieces(pairs))) == pairs
  {
    if pairs == [] {
      // The empty query splits into one empty piece, which is no pair.
      assert Join("&", Pieces(pairs)) == "";
      assert Split("", '&') == [""];
      return;
    }
    var pieces := Pieces(pairs);
    forall i | 0 <= i < |pieces| ensures '&' !in pieces[i] {
      assert pieces[i] == pairs[i].0 + "=" + pairs[i].1;
    }
    SplitJoin(pieces, '&');
    assert Split(Join("&", pieces), '&') == pieces;
    PiecesParse(pairs);
  }

  /** The parameters of a query written from pairs are the dictionary of those pairs. */
  lemma ParseQueryRoundTrip(pairs: seq<(string, string)>)
    requires forall i | 0 <= i < |pairs| :: '=' !in pairs[i].0 && '&' !in pairs[i].0
    requires forall i | 0 <= i < |pairs| :: |pairs[i].1| > 0 && '&' !in pairs[i].1
    ensures ParseQuery(Join("&", Pieces(pairs))) == ToParams(pairs)
  {
    QueryPairsRoundTrip(pairs);
  }

  lemma {:induction false} PiecesParse(pairs: seq<(string, string)>)
    requires forall i | 0 <= i < |pairs| :: '=' !in pairs[i].0
    requires forall i | 0 <= i < |pairs| :: |pairs[i].1| > 0
    ensures QueryPairsOf(Pieces(pairs)) == pairs
    decreases |pairs|
  {
    if pairs != [] {
      var (k, v) := pairs[0];
      var piece := k + "=" + v;
      forall j | 0 <= j < |k| ensures piece[j] != '=' {
        assert piece[j] == k[j];
      }
      IndexFromStopsAt(piece, '=', 0, |k|);
      assert piece[..|k|] == k && piece[|k| + 1..] == v;
      assert Pieces(pairs)[1..] == Pieces(pairs[1..]);
      PiecesParse(pairs[1..]);
      assert pairs == [pairs[0]] + pairs[1..];
    }
  }

  // ---------------------------------------------------------------------------
  // Pagination.

  /** Where the next request goes: the path of the `rel="next"` URL and its query pairs, nothing else. */
  datatype Cursor = Cursor(endpoint: string, params: Params)

  /** The cursor a `link` header gives; none when the header is absent, empty, or has no `rel="next"` entry. */
  function NextCursor(link: Option<string>): Option<Cursor> {
    if link.None? || link.value == "" then None
    else
      match NextLink(link.value)
      case None => None
      case Some(url) => Some(Cursor(UrlPath(url), ParseQuery(UrlQuery(url))))
  }

  /**
   * A header opening with the entry `<scheme://host/path?query>; rel="next"` sends the
   * next request to that path with the parameters of that query; an absent or empty
   * header ends the crawl.
   */
  lemma NextCursorOfEntry(h: string, ws: string, url: string, scheme: string, host: string, path: string, query: string)
    requires |scheme| > 0 && IsAsciiLetter(scheme[0]) && forall k | 0 <= k < |scheme| :: IsSchemeChar(scheme[k])
    requires forall k | 0 <= k < |host| :: host[k] != '/' && host[k] != '?' && host[k] != '#'
    requires path == "" || path[0] == '/'
    requires '?' !in path && '#' !in path && '#' !in query
    requires url == scheme + "://" + host + path + "?" + query && '>' !in url
    requires forall k | 0 <= k < |ws| :: IsSpace(ws[k])
    requires StartsAt(h, 0, LinkEntry(url, ws, "next"))
    ensures NextCursor(Some(h)) == Some(Cursor(path, ParseQuery(query)))
    ensures NextCursor(None) == None && NextCursor(Some("")) == None
  {
    EntryRecognised(h, 0, url, ws, "next");
    NextLinkIsFirstMatch(h, 0, url);
    UrlSplitsIntoPathAndQuery(scheme, host, path, query);
  }

  /** `data.get("items", [])` */
  function PageItems<T>(body: PageBody<T>): seq<T> {
    match body.items
    case Some(items) => items
    case None => []
  }

  /** The requests made and what the paginator returns or raises. */
  datatype Trace<T> = Trace(requests: seq<Request>, outcome: Result<seq<T>, ClientStatusError>)

  /** A trace that starts with `done` requests and `items` gathered, then continues as `rest`. */
  function Then<T>(done: seq<Request>, items: seq<T>, rest: Trace<T>): Trace<T> {
    Trace(done + rest.requests, if rest.outcome.Ok? then Ok(items + rest.outcome.value) else rest.outcome)
  }

  /**
   * What `_paginate` does from a given endpoint and parameters with `budget`
   * pages left: nothing when the endpoint is empty or the budget spent;
   * otherwise it visits the page. `cursorOf` reads the next page from a
   * `link` header; `_paginate` itself uses `NextCursor`, and the lemmas
   * below hold whatever the reader.
   */
  function Crawl<T>(client: Client, server: Request -> Response<PageBody<T>>, cursorOf: Option<string> -> Option<Cursor>, endpoint: string, params: Params, budget: int): Trace<T>
    decreases budget, 2
  {
    if endpoint == "" || budget <= 0 then Trace([], Ok([]))
    else Visit(client, server, cursorOf, endpoint, params, budget)
  }

  /** One GET, which either fails the crawl or is followed by `FollowLink`. */
  function Visit<T>(client: Client, server: Request -> Response<PageBody<T>>, cursorOf: Option<string> -> Option<Cursor>, endpoint: string, params: Params, budget: int): Trace<T>
    requires budget > 0
    decreases budget, 1
  {
    var request := Request(client.baseUrl + endpoint, params);
    match Get(client, server, endpoint, params)
    case Err(e) => Trace([request], Err(e))
    case Ok(response) => FollowLink(client, server, cursorOf, request, response, budget)
  }

  /**
   * After a successful `request` answered by `response`: its items, followed
   * by the rest of the crawl when the `link` header names a next page.
   */
  function FollowLink<T>(client: Client, server: Request -> Response<PageBody<T>>, cursorOf: Option<string> -> Option<Cursor>, request: Request, response: Response<PageBody<T>>, budget: int): Trace<T>
    requires budget > 0
    decreases budget, 0
  {
    var page := PageItems(response.body);
    match cursorOf(response.link)
    case None => Trace([request], Ok(page))
    case Some(next) => Then([request], page, Crawl(client, server, cursorOf, next.endpoint, next.params, budget - 1))
  }

  lemma ThenNothing<T>(done: seq<Request>, items: seq<T>)
    ensures Then(done, items, Trace([], Ok([]))) == Trace(done, Ok(items))
  {
    assert done + [] == done && items + [] == items;
  }

  lemma ThenThen<T>(a: seq<Request>, xs: seq<T>, b: seq<Request>, ys: seq<T>, t: Trace<T>)
    ensures Then(a, xs, Then(b, ys, t)) == Then(a + b, xs + ys, t)
  {
    assert a + (b + t.requests) == (a + b) + t.requests;
    if t.outcome.Ok? {
      assert xs + (ys + t.outcome.value) == (xs + ys) + t.outcome.value;
    }
  }

  /**
   * One pass of the loop body of `_paginate`: GET the page, take its items and
   * read its `link` header. The crawl from this endpoint is this request, then
   * either the error, or the items and nothing more, or the items and the
   * crawl from the next cursor with one page fewer.
   */
  method FetchPage<T>(client: Client, server: Request -> Response<PageBody<T>>, endpoint: string, params: Params, ghost budget: int)
    returns (got: Result<(seq<T>, Option<Cursor>), ClientStatusError>)
    requires endpoint != "" && budget > 0
    ensures var request := Request(client.baseUrl + endpoint, params);
      match got
      case Err(e) => Crawl(client, server, NextCursor, endpoint, params, budget) == Trace([request], Err(e))
      case Ok((page, None)) => Crawl(client, server, NextCursor, endpoint, params, budget) == Trace([request], Ok(page))
      case Ok((page, Some(next))) =>
        Crawl(client, server, NextCursor, endpoint, params, budget) == Then([request], page, Crawl(client, server, NextCursor, next.endpoint, next.params, budget - 1))
  {
    var request := Request(client.baseUrl + endpoint, params);
    var fetched := Get(client, server, endpoint, params);
    assert Crawl(client, server, NextCursor, endpoint, params, budget) == Visit(client, server, NextCursor, endpoint, params, budget);
    if fetched.Err? {
      return Err(fetched.error);
    }
    var response := fetched.value;
    assert Visit(client, server, NextCursor, endpoint, params, budget) == FollowLink(client, server, NextCursor, request, response, budget);
    var page := PageItems(response.body);
    var cursor := NextCursor(response.link);
    got := Ok((page, cursor));
  }

  /** `Client._paginate` */
  method Paginate<T>(client: Client, server: Request -> Response<PageBody<T>>, endpoint: string, params: Params, maxPages: int := DefaultMaxPages)
    returns (r: Result<seq<T>, ClientStatusError>, ghost requests: seq<Request>)
    ensures r == Crawl(client, server, NextCursor, endpoint, params, maxPages).outcome
    ensures Trace(requests, r) == Crawl(client, server, NextCursor, endpoint, params, maxPages)
  {
    var items: seq<T> := [];
    var pagesFetched := 0;
    var currentEndpoint := endpoint;
    var currentParams := params;
    requests := [];
    ghost var left := maxPages;
    ghost var whole := Crawl(client, server, NextCursor, endpoint, params, maxPages);
    assert Then([], [], whole) == whole by {
      assert [] + whole.requests == whole.requests;
      assert whole.outcome.Ok? ==> [] + whole.outcome.value == whole.outcome.value;
    }
    while currentEndpoint != "" && pagesFetched < maxPages
      invariant 0 <= pagesFetched && left == maxPages - pagesFetched
      invariant whole == Then(requests, items, Crawl(client, server, NextCursor, currentEndpoint, currentParams, left))
      decreases left
    {
      var request := Request(client.baseUrl + currentEndpoint, currentParams);
      var got := FetchPage(client, server, currentEndpoint, currentParams, left);
      if got.Err? {
        requests := requests + [request];
        r := Err(got.error);
        return;
      }
      var (page, cursor) := got.value;
      if cursor.None? {
        // no `link` header, or no `rel="next"` entry in it: the loop ends
        ThenThen(requests, items, [request], page, Trace([], Ok([])));
        ThenNothing([request], page);
        ThenNothing(requests + [request], items + page);
        requests := requests + [request];
        r := Ok(items + page);
        return;
      }
      ThenThen(requests, items, [request], page, Crawl(client, server, NextCursor, cursor.value.endpoint, cursor.value.params, left - 1));
      requests := requests + [request];
      items := items + page;
      pagesFetched := pagesFetched + 1;
      currentEndpoint := cursor.value.endpoint;
      currentParams := cursor.value.params;
      left := left - 1;
    }
    ThenNothing(requests, items);
    r := Ok(items);
  }

  // ---------------------------------------------------------------------------
  // What a crawl is, request by request.

  /** One step of a crawl from a non-empty endpoint with pages left. */
  lemma CrawlStep<T>(client: Client, server: Request -> Response<PageBody<T>>, cursorOf: Option<string> -> Option<Cursor>, endpoint: string, params: Params, budget: int)
    requires endpoint != "" && budget > 0
    ensures var request := Request(client.baseUrl + endpoint, params);
      var response := server(request);
      Crawl(client, server, cursorOf, endpoint, params, budget)
        == if !IsSuccess(response.status) then Trace([request], Err(ClientStatusError(response.status)))
           else match cursorOf(response.link)
             case None => Trace([request], Ok(PageItems(response.body)))
             case Some(next) => Then([request], PageItems(response.body), Crawl(client, server, cursorOf, next.endpoint, next.params, budget - 1))
  {
    var request := Request(client.baseUrl + endpoint, params);
    assert Crawl(client, server, cursorOf, endpoint, params, budget) == Visit(client, server, cursorOf, endpoint, params, budget);
    if IsSuccess(server(request).status) {
      assert Visit(client, server, cursorOf, endpoint, params, budget) == FollowLink(client, server, cursorOf, request, server(request), budget);
    }
  }

  /**
   * The request that follows `request` in a crawl: the next link of a
   * successful response, unless there is none or its path is empty.
   */
  function Successor<T>(client: Client, server: Request -> Response<PageBody<T>>, cursorOf: Option<string> -> Option<Cursor>, request: Request): Option<Request> {
    var response := server(request);
    if !IsSuccess(response.status) then None
    else
      match cursorOf(response.link)
      case None => None
      case Some(next) => if next.endpoint == "" then None else Some(Request(client.baseUrl + next.endpoint, next.params))
  }

  /** The items of the pages answering `requests`, in order. */
  function AllItems<T>(server: Request -> Response<PageBody<T>>, requests: seq<Request>): seq<T> {
    if requests == [] then [] else PageItems(server(requests[0]).body) + AllItems(server, requests[1..])
  }

  /**
   * At most `max_pages` requests; none when the endpoint is empty or no page
   * is allowed; otherwise the first goes to `base_url + endpoint` with the
   * given parameters.
   */
  lemma {:induction false} CrawlBounds<T>(client: Client, server: Request -> Response<PageBody<T>>, cursorOf: Option<string> -> Option<Cursor>, endpoint: string, params: Params, budget: int)
    ensures var t := Crawl(client, server, cursorOf, endpoint, params, budget);
      |t.requests| <= (if budget > 0 then budget else 0)
    ensures endpoint == "" || budget <= 0 ==> Crawl(client, server, cursorOf, endpoint, params, budget) == Trace([], Ok([]))
    ensures var t := Crawl(client, server, cursorOf, endpoint, params, budget);
      endpoint != "" && budget > 0 ==> |t.requests| > 0 && t.requests[0] == Request(client.baseUrl + endpoint, params)
    decreases budget
  {
    if endpoint != "" && budget > 0 {
      CrawlStep(client, server, cursorOf, endpoint, params, budget);
      var response := server(Request(client.baseUrl + endpoint, params));
      if IsSuccess(response.status) && cursorOf(response.link).Some? {
        var next := cursorOf(response.link).value;
        CrawlBounds(client, server, cursorOf, next.endpoint, next.params, budget - 1);
      }
    }
  }

  /** Each request after the first is the successor of the one before it. */
  lemma {:induction false} CrawlChain<T>(client: Client, server: Request -> Response<PageBody<T>>, cursorOf: Option<string> -> Option<Cursor>, endpoint: string, params: Params, budget: int)
    ensures var rs := Crawl(client, server, cursorOf, endpoint, params, budget).requests;
      forall i | 0 <= i < |rs| - 1 :: Successor(client, server, cursorOf, rs[i]) == Some(rs[i + 1])
    decreases budget
  {
    if endpoint != "" && budget > 0 {
      CrawlStep(client, server, cursorOf, endpoint, params, budget);
      var request := Request(client.baseUrl + endpoint, params);
      var response := server(request);
      if IsSuccess(response.status) && cursorOf(response.link).Some? {
        var next := cursorOf(response.link).value;
        var rest := Crawl(client, server, cursorOf, next.endpoint, next.params, budget - 1);
        CrawlChain(client, server, cursorOf, next.endpoint, next.params, budget - 1);
        CrawlBounds(client, server, cursorOf, next.endpoint, next.params, budget - 1);
        var rs := Crawl(client, server, cursorOf, endpoint, params, budget).requests;
        assert rs == [request] + rest.requests;
        if |rest.requests| > 0 {
          assert Successor(client, server, cursorOf, request) == Some(rest.requests[0]);
        }
        forall i | 0 <= i < |rs| - 1 ensures Successor(client, server, cursorOf, rs[i]) == Some(rs[i + 1]) {
          if i > 0 {
            assert rs[i] == rest.requests[i - 1] && rs[i + 1] == rest.requests[i];
          }
        }
      }
    }
  }

  /** The last request of `Then([request], items, rest)` and how its outcome follows that of `rest`. */
  lemma ThenOne<T>(request: Request, items: seq<T>, rest: Trace<T>)
    ensures var t := Then([request], items, rest);
      && |t.requests| == 1 + |rest.requests|
      && t.requests[|t.requests| - 1] == (if rest.requests == [] then request else rest.requests[|rest.requests| - 1])
      && (t.outcome.Err? <==> rest.outcome.Err?)
      && (rest.outcome.Err? ==> t.outcome == rest.outcome)
  {
  }

  /** A crawl that raises does so with the status of its last request, which failed. */
  lemma {:induction false} CrawlFails<T>(client: Client, server: Request -> Response<PageBody<T>>, cursorOf: Option<string> -> Option<Cursor>, endpoint: string, params: Params, budget: int)
    ensures var t := Crawl(client, server, cursorOf, endpoint, params, budget);
      t.outcome.Err? ==> (|t.requests| > 0
        && !IsSuccess(server(t.requests[|t.requests| - 1]).status)
        && t.outcome.error == ClientStatusError(server(t.requests[|t.requests| - 1]).status))
    decreases budget
  {
    var t := Crawl(client, server, cursorOf, endpoint, params, budget);
    if endpoint != "" && budget > 0 {
      CrawlStep(client, server, cursorOf, endpoint, params, budget);
      var request := Request(client.baseUrl + endpoint, params);
      var response := server(request);
      var cursor := cursorOf(response.link);
      if !IsSuccess(response.status) {
        assert t == Trace([request], Err(ClientStatusError(response.status)));
      } else if cursor.None? {
        assert t.outcome.Ok?;
      } else {
        var rest := Crawl(client, server, cursorOf, cursor.value.endpoint, cursor.value.params, budget - 1);
        assert t == Then([request], PageItems(response.body), rest);
        CrawlFails(client, server, cursorOf, cursor.value.endpoint, cursor.value.params, budget - 1);
        ThenOne(request, PageItems(response.body), rest);
      }
    }
  }

  /** The last request of a crawl that returns succeeded. */
  lemma {:induction false} CrawlLastSucceeded<T>(client: Client, server: Request -> Response<PageBody<T>>, cursorOf: Option<string> -> Option<Cursor>, endpoint: string, params: Params, budget: int)
    ensures var t := Crawl(client, server, cursorOf, endpoint, params, budget);
      t.outcome.Ok? && |t.requests| > 0 ==> IsSuccess(server(t.requests[|t.requests| - 1]).status)
    decreases budget
  {
    if endpoint != "" && budget > 0 {
      CrawlStep(client, server, cursorOf, endpoint, params, budget);
      var request := Request(client.baseUrl + endpoint, params);
      var response := server(request);
      if IsSuccess(response.status) && cursorOf(response.link).Some? {
        var next := cursorOf(response.link).value;
        var rest := Crawl(client, server, cursorOf, next.endpoint, next.params, budget - 1);
        CrawlLastSucceeded(client, server, cursorOf, next.endpoint, next.params, budget - 1);
        var rs := [request] + rest.requests;
        if |rest.requests| > 0 {
          assert rs[|rs| - 1] == rest.requests[|rest.requests| - 1];
        }
      }
    }
  }

  /**
   * A crawl that returns before using up its page budget stopped because
   * its last page named no next page.
   */
  lemma {:induction false} CrawlStopsEarly<T>(client: Client, server: Request -> Response<PageBody<T>>, cursorOf: Option<string> -> Option<Cursor>, endpoint: string, params: Params, budget: int)
    ensures var t := Crawl(client, server, cursorOf, endpoint, params, budget);
      t.outcome.Ok? && 0 < |t.requests| < budget ==> Successor(client, server, cursorOf, t.requests[|t.requests| - 1]).None?
    decreases budget
  {
    if endpoint != "" && budget > 0 {
      CrawlStep(client, server, cursorOf, endpoint, params, budget);
      var request := Request(client.baseUrl + endpoint, params);
      var response := server(request);
      if IsSuccess(response.status) && cursorOf(response.link).Some? {
        var next := cursorOf(response.link).value;
        var rest := Crawl(client, server, cursorOf, next.endpoint, next.params, budget - 1);
        CrawlStopsEarly(client, server, cursorOf, next.endpoint, next.params, budget - 1);
        CrawlBounds(client, server, cursorOf, next.endpoint, next.params, budget - 1);
        var rs := [request] + rest.requests;
        if |rest.requests| > 0 {
          assert rs[|rs| - 1] == rest.requests[|rest.requests| - 1];
        } else if budget > 1 {
          assert next.endpoint == "";
        }
      }
    }
  }

  /** A crawl that succeeds returns the items of all its pages, in request order. */
  lemma {:induction false} CrawlItems<T>(client: Client, server: Request -> Response<PageBody<T>>, cursorOf: Option<string> -> Option<Cursor>, endpoint: string, params: Params, budget: int)
    ensures var t := Crawl(client, server, cursorOf, endpoint, params, budget);
      t.outcome.Ok? ==> t.outcome.value == AllItems(server, t.requests)
    decreases budget
  {
    if endpoint != "" && budget > 0 {
      CrawlStep(client, server, cursorOf, endpoint, params, budget);
      var request := Request(client.baseUrl + endpoint, params);
      var response := server(request);
      if IsSuccess(response.status) && cursorOf(response.link).Some? {
        var next := cursorOf(response.link).value;
        var rest := Crawl(client, server, cursorOf, next.endpoint, next.params, budget - 1);
        CrawlItems(client, server, cursorOf, next.endpoint, next.params, budget - 1);
        var rs := [request] + rest.requests;
        assert rs[1..] == rest.requests;
      } else if IsSuccess(response.status) {
        assert [request][1..] == [];
        assert PageItems(response.body) + [] == PageItems(response.body);
      }
    }
  }

  // ---------------------------------------------------------------------------
  // The two public calls.

  /** The query of a code search: `{"q": query, "per_page": 100}`, the page size sent as text. */
  function SearchParams(query: string): (p: Params)
    ensures p.Keys == {"q", "per_page"} && p["q"] == query && p["per_page"] == "100"
  {
    map["q" := query, "per_page" := MaxPerPage]
  }

  /** `Client.search_code`: the items of up to `max_pages` pages of `/search/code` results. */
  method SearchCode<T>(client: Client, server: Request -> Response<PageBody<T>>, query: string, maxPages: int := DefaultMaxPages)
    returns (r: Result<seq<T>, ClientStatusError>, ghost requests: seq<Request>)
    ensures r == Crawl(client, server, NextCursor, SearchEndpoint, SearchParams(query), maxPages).outcome
    ensures Trace(requests, r) == Crawl(client, server, NextCursor, SearchEndpoint, SearchParams(query), maxPages)
    ensures maxPages > 0 ==> |requests| > 0 && requests[0] == Request(client.baseUrl + "/search/code", SearchParams(query))
    ensures |requests| <= (if maxPages > 0 then maxPages else 0)
    ensures r.Ok? ==> r.value == AllItems(server, requests)
  {
    r, requests := Paginate(client, server, SearchEndpoint, SearchParams(query), maxPages);
    CrawlBounds(client, server, NextCursor, SearchEndpoint, SearchParams(query), maxPages);
    CrawlItems(client, server, NextCursor, SearchEndpoint, SearchParams(query), maxPages);
  }

  /** The contents endpoint of a path in a repository: `/repos/{org}/{repo}/contents{subpath}`. */
  function ContentsEndpoint(org: string, repo: string, subpath: string): (e: string)
    ensures |e| == 17 + |org| + |repo| + |subpath|
    ensures e[..7] == "/repos/" && e[|e| - |subpath|..] == subpath
  {
    "/repos/" + org + "/" + repo + "/contents" + subpath
  }

  /** `Client.get_repo_contents`: one GET without query parameters, the decoded listing on success. */
  function GetRepoContents(client: Client, server: Request -> Response<seq<Entry>>, org: string, repo: string, subpath: string := ""): (r: Result<seq<Entry>, ClientStatusError>)
    ensures var response := server(Request(client.baseUrl + ContentsEndpoint(org, repo, subpath), map[]));
      && (IsSuccess(response.status) ==> r == Ok(response.body))
      && (!IsSuccess(response.status) ==> r == Err(ClientStatusError(response.status)))
  {
    match Get(client, server, ContentsEndpoint(org, repo, subpath), map[])
    case Ok(response) => Ok(response.body)
    case Err(e) => Err(e)
  }
}
