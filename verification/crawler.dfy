/** The single-seed breadth-first crawler `scrape_page` of dataPrimer.py.

    The browser is replaced by a `Site`: the rendered pages the crawler can
    load, what each page links to, and which output files cannot be written.
    `urlparse(url).path` is a parameter `urlPath` of the crawl. */
module Crawler {
  import opened Wrappers
  import opened Strings

  type Url = string

  /** What one successful `page.goto` + `page.content()` yields: the rendered
      markup, and the anchors' resolved hrefs, or `None` when reading them
      raised after the file had already been written. */
  datatype Render = Render(content: string, links: Option<seq<Url>>)

  /** The web as one crawl sees it. A URL outside `pages` fails to load;
      a URL path in `unwritable` is one whose output file cannot be opened
      or written. Both failures are caught by the same handler and end that
      URL's turn. */
  datatype Site = Site(pages: map<Url, Render>, unwritable: set<string>)

  /** One file written by the crawler, for the page at `url` whose URL path
      is `path` and whose rendered markup is `content`. */
  datatype Document = Document(path: string, url: Url, content: string)
  {
    /** The file it is written to. */
    function File(): string {
      FileName(path)
    }

    /** The text written to it. */
    function Text(): string {
      Body(url, content)
    }
  }

  /** `re.match` anchors the scope pattern at the start only, and its
      trailing `.*` accepts anything, so the test is a literal prefix. */
  const ScopePrefix: string := "https://www.thalesdocs.com/ctp/cm/latest/"

  const ImageExtensions: seq<string> := [".jpg", ".jpeg", ".png", ".gif", ".bmp", ".svg", ".webp"]

  const OutputDirectory: string := "markdown"

  predicate InScope(link: Url) {
    IsPrefix(ScopePrefix, link)
  }

  /** `link.endswith(image_extensions)` */
  predicate IsImage(link: Url) {
    exists k :: 0 <= k < |ImageExtensions| && IsSuffix(ImageExtensions[k], link)
  }

  /** The filter a discovered link must pass before the `visited` test. */
  predicate Eligible(link: Url) {
    InScope(link) && !IsImage(link)
  }

  // ---------------------------------------------------------------------
  // Output file name and body

  /** `os.path.join(a, b)` on POSIX. */
  function PathJoin(a: string, b: string): string {
    if b != [] && b[0] == '/' then b
    else if a == [] || a[|a| - 1] == '/' then a + b
    else a + "/" + b
  }

  /** The file's base name without `.md`: leading slashes stripped, every
      `/` turned into `_`, then one pass removing `.html`. */
  function Stem(path: string): string {
    ReplaceAll(ReplaceChar(LStrip(path, '/'), '/', '_'), ".html", "")
  }

  function FileName(path: string): string {
    PathJoin(OutputDirectory, Stem(path) + ".md")
  }

  /** The base name holds no `/`: every one left after stripping became `_`,
      and the `.html` pass adds none. */
  lemma StemHasNoSlash(path: string)
    ensures '/' !in Stem(path)
  {
    var stripped := ReplaceChar(LStrip(path, '/'), '/', '_');
    assert '/' !in stripped by {
      forall i | 0 <= i < |stripped| ensures stripped[i] != '/' {
      }
    }
    ReplaceAllChars(stripped, ".html", "");
  }

  /** `os.path.join` of a directory without a trailing slash and a relative name. */
  lemma PathJoinRelative(a: string, b: string)
    requires a != [] && a[|a| - 1] != '/'
    requires b != [] && b[0] != '/'
    ensures PathJoin(a, b) == a + "/" + b
  {
  }

  /** The file name is always `markdown/<base>.md` with a base name free of
      `/`, so every page lands directly inside the output directory. */
  lemma FileNameShape(path: string)
    ensures '/' !in Stem(path)
    ensures FileName(path) == "markdown/" + Stem(path) + ".md"
    ensures IsPrefix("markdown/", FileName(path))
    ensures IsSuffix(".md", FileName(path))
  {
    var stem := Stem(path);
    StemHasNoSlash(path);
    var base := stem + ".md";
    assert base[0] != '/' by {
      if stem == [] {
        assert base == ".md";
      } else {
        assert base[0] == stem[0];
        assert stem[0] in stem;
      }
    }
    assert OutputDirectory[7] == 'n';
    PathJoinRelative(OutputDirectory, base);
    var f := FileName(path);
    assert f == "markdown/" + (stem + ".md");
    assert f[..9] == "markdown/";
    assert f[|f| - 3..] == ".md";
  }

  /** Different pages can share one output file, so a later page overwrites
      an earlier one: a `/` and a `_` at the same place give the same name
      (`/a/b` and `/a_b`, say) once something other than slashes precedes it ... */
  lemma SlashUnderscoreCollision(s: string, t: string)
    requires LStrip(s, '/') != []
    ensures FileName(s + "/" + t) == FileName(s + "_" + t)
  {
    SeparatorReplaced(s, '/', t);
    SeparatorReplaced(s, '_', t);
    assert ReplaceChar("/", '/', '_') == "_" == ReplaceChar("_", '/', '_');
    assert Stem(s + "/" + t) == Stem(s + "_" + t);
  }

  /** Stripping and replacing act on `s`, the separator `c` and `t` apart,
      once `s` keeps something after its leading slashes. */
  lemma SeparatorReplaced(s: string, c: char, t: string)
    requires LStrip(s, '/') != []
    ensures ReplaceChar(LStrip(s + [c] + t, '/'), '/', '_')
      == ReplaceChar(LStrip(s, '/'), '/', '_') + ReplaceChar([c], '/', '_') + ReplaceChar(t, '/', '_')
  {
    var x := LStrip(s, '/');
    assert s + [c] + t == s + ([c] + t);
    LStripAppend(s, [c] + t, '/');
    ReplaceCharAppend(x, [c] + t, '/', '_');
    ReplaceCharAppend([c], t, '/', '_');
  }

  /** The pattern `.html` holds no `/`, and its `.` does not recur. */
  lemma HtmlPattern()
    ensures '/' !in ".html"
    ensures forall k :: 0 < k < |".html"| ==> ".html"[k] != ".html"[0]
  {
  }

  /** ... and a path and the same path with `.html` appended give the same name. */
  lemma HtmlSuffixCollision(p: string)
    ensures FileName(p + ".html") == FileName(p)
  {
    var x := LStrip(p, '/');
    var y := ReplaceChar(x, '/', '_');
    HtmlPattern();
    LStripAppend(p, ".html", '/');
    ReplaceCharAppend(x, ".html", '/', '_');
    ReplaceCharAbsent(".html", '/', '_');
    assert ReplaceChar(x + ".html", '/', '_') == y + ".html";
    ReplaceAllAppendPattern(y, ".html", "");
    assert Stem(p + ".html") == ReplaceAll(y + ".html", ".html", "");
    assert Stem(p + ".html") == Stem(p);
  }

  /** The removal of `.html` is a single pass: removing one occurrence can
      bring another one together, as the path `/a.ht.htmlml` shows. */
  lemma StemMayKeepHtml()
    ensures Stem("/" + "a.ht" + ".html" + "ml") == "a.html"
  {
    var s := "a.ht" + ".html" + "ml";
    assert "/" + "a.ht" + ".html" + "ml" == "/" + s;
    assert s[0] == 'a';
    assert '/' !in "a.ht" && '/' !in ".html" && '/' !in "ml";
    OneLeadingSlash(s);
    SinglePassExample();
  }

  /** A path of one leading `/` and no other reaches the `.html` pass as the rest. */
  lemma OneLeadingSlash(s: string)
    requires s != [] && s[0] != '/' && '/' !in s
    ensures ReplaceChar(LStrip("/" + s, '/'), '/', '_') == s
  {
    LStripAppend("/", s, '/');
    ReplaceCharAbsent(s, '/', '_');
  }

  /** `a.ht.htmlml` loses its one `.html` and becomes `a.html`. */
  lemma SinglePassExample()
    ensures ReplaceAll("a.ht" + ".html" + "ml", ".html", "") == "a.html"
  {
    var a, pat := "a.ht", ".html";
    var t := a + (pat + "ml");
    forall k | 0 <= k < |a| ensures !IsPrefix(pat, t[k..]) {
      assert t[k..][0] == a[k];
      if k == 1 {
        assert t[k..][3] == t[4] == pat[0];
        NotPrefixAt(pat, t[k..], 3);
      } else {
        NotPrefixAt(pat, t[k..], 0);
      }
    }
    ReplaceAllCopies(a, pat + "ml", pat, "");
    ReplaceAllHit("ml", pat, "");
    ReplaceAllShort("ml", pat, "");
    assert a + pat + "ml" == t;
    assert a + "ml" == "a.html";
  }

  const UrlHeader: string := "## URL: "
  const ContentHeader: string := "### Content:\n\n"

  /** The text written for a page: its URL header, the content marker and
      the rendered markup, each block followed by a blank line. */
  function Body(url: Url, content: string): string {
    UrlHeader + url + "\n\n" + ContentHeader + content + "\n\n"
  }

  /** Position of the first occurrence of `t` in `s`. */
  function IndexOf(s: string, t: string): (r: Option<nat>)
    ensures r.Some? ==> r.value + |t| <= |s| && s[r.value..r.value + |t|] == t
  {
    if IsPrefix(t, s) then Some(0)
    else if s == [] then None
    else match IndexOf(s[1..], t)
      case None => None
      case Some(i) => Some(i + 1)
  }

  /** Reads a crawled document back into its URL and content. */
  function ParseBody(text: string): Option<(Url, string)> {
    if IsPrefix(UrlHeader, text) then ParseFields(text[|UrlHeader|..]) else None
  }

  /** The URL runs up to the first blank line; the content block follows. */
  function ParseFields(rest: string): Option<(Url, string)> {
    match IndexOf(rest, "\n\n")
    case None => None
    case Some(i) =>
      match ParseContent(rest[i + 2..])
      case None => None
      case Some(content) => Some((rest[..i], content))
  }

  function ParseContent(after: string): Option<string> {
    if !IsPrefix(ContentHeader, after) then None
    else
      var tail := after[|ContentHeader|..];
      if IsSuffix("\n\n", tail) then Some(tail[..|tail| - 2]) else None
  }

  lemma {:induction false} IndexOfAfterLine(u: string, x: string)
    requires '\n' !in u
    ensures IndexOf(u + "\n\n" + x, "\n\n") == Some(|u|)
    decreases |u|
  {
    var s := u + "\n\n" + x;
    if u == [] {
      assert IsPrefix("\n\n", s);
    } else {
      assert s[0] == u[0];
      assert !IsPrefix("\n\n", s);
      assert s[1..] == u[1..] + "\n\n" + x;
      IndexOfAfterLine(u[1..], x);
    }
  }

  lemma ParseHeader(rest: string)
    ensures ParseBody(UrlHeader + rest) == ParseFields(rest)
  {
    assert (UrlHeader + rest)[..|UrlHeader|] == UrlHeader;
    assert (UrlHeader + rest)[|UrlHeader|..] == rest;
  }

  lemma ParseUrlLine(url: Url, after: string)
    requires '\n' !in url
    ensures ParseFields(url + "\n\n" + after) ==
      match ParseContent(after)
      case None => None
      case Some(content) => Some((url, content))
  {
    var rest := url + "\n\n" + after;
    IndexOfAfterLine(url, after);
    assert rest[|url| + 2..] == after;
    assert rest[..|url|] == url;
  }

  lemma ParseContentBlock(content: string)
    ensures ParseContent(ContentHeader + content + "\n\n") == Some(content)
  {
    var after := ContentHeader + content + "\n\n";
    assert after[..|ContentHeader|] == ContentHeader;
    assert after[|ContentHeader|..] == content + "\n\n";
    assert (content + "\n\n")[..|content|] == content;
  }

  /** The document body round-trips: the URL (which, as a parsed href, holds
      no line break) and the page content are recovered exactly. */
  lemma BodyRoundTrip(url: Url, content: string)
    requires '\n' !in url
    ensures ParseBody(Body(url, content)) == Some((url, content))
  {
    var after := ContentHeader + content + "\n\n";
    var rest := url + "\n\n" + after;
    assert Body(url, content) == UrlHeader + rest;
    ParseHeader(rest);
    ParseContentBlock(content);
    ParseUrlLine(url, after);
    assert ParseFields(rest) == Some((url, content));
  }

  // ---------------------------------------------------------------------
  // The traversal

  /** The links the crawler reads from `u`: none when the page failed to
      load, its file could not be written, or its anchors could not be read. */
  function Discovered(site: Site, urlPath: Url -> string, u: Url): seq<Url> {
    if u in site.pages && urlPath(u) !in site.unwritable && site.pages[u].links.Some?
    then site.pages[u].links.value
    else []
  }

  /** The document written when `u` is dequeued, if any. */
  function Written(site: Site, urlPath: Url -> string, u: Url): Option<Document> {
    if u in site.pages && urlPath(u) !in site.unwritable
    then Some(Document(urlPath(u), u, site.pages[u].content))
    else None
  }

  /** The loaded URLs whose document gets written. */
  function Writes(site: Site, urlPath: Url -> string): Url -> bool {
    (u: Url) => Written(site, urlPath, u).Some?
  }

  /** The documents written, in order, for a sequence of loaded URLs. */
  function Documents(site: Site, urlPath: Url -> string, fetched: seq<Url>): (docs: seq<Document>)
    ensures |docs| <= |fetched|
    ensures forall d :: d in docs ==> exists u :: u in fetched && Written(site, urlPath, u) == Some(d)
    ensures forall u :: u in fetched && Written(site, urlPath, u).Some? ==> Written(site, urlPath, u).value in docs
  {
    if fetched == [] then []
    else
      var last := fetched[|fetched| - 1];
      var prior := Documents(site, urlPath, fetched[..|fetched| - 1]);
      assert forall u :: u in fetched ==> u in fetched[..|fetched| - 1] || u == last by {
        assert fetched == fetched[..|fetched| - 1] + [last];
      }
      match Written(site, urlPath, last)
      case None => prior
      case Some(d) => prior + [d]
  }

  /** One document for each loaded URL whose file could be written, in load
      order: `Documents` is the filter of the loaded URLs by `Writes`. */
  lemma {:induction false} DocumentsInOrder(site: Site, urlPath: Url -> string, fetched: seq<Url>)
    ensures var ps := Positions(fetched, Writes(site, urlPath), |fetched|);
      |Documents(site, urlPath, fetched)| == |ps|
      && forall m :: 0 <= m < |ps| ==> Written(site, urlPath, fetched[ps[m]]) == Some(Documents(site, urlPath, fetched)[m])
  {
    if fetched != [] {
      var n := |fetched|;
      var init := fetched[..n - 1];
      var keep := Writes(site, urlPath);
      PositionsPrefix(init, fetched, keep, n - 1);
      DocumentsInOrder(site, urlPath, init);
      var ps0 := Positions(init, keep, n - 1);
      var ps := Positions(fetched, keep, n);
      var prior := Documents(site, urlPath, init);
      var docs := Documents(site, urlPath, fetched);
      assert |prior| == |ps0|;
      forall m | 0 <= m < |ps0| ensures Written(site, urlPath, fetched[ps0[m]]) == Some(prior[m]) {
        assert init[ps0[m]] == fetched[ps0[m]];
      }
      if Written(site, urlPath, fetched[n - 1]).Some? {
        assert keep(fetched[n - 1]);
        assert ps == ps0 + [n - 1];
        assert docs == prior + [Written(site, urlPath, fetched[n - 1]).value];
      } else {
        assert !keep(fetched[n - 1]);
        assert ps == ps0;
        assert docs == prior;
      }
    }
  }

  /** The loaded URLs being distinct, so are the documents' URLs: at most one
      file is written per loaded page. */
  lemma DocumentsOnePerUrl(site: Site, urlPath: Url -> string, fetched: seq<Url>)
    requires NoDuplicates(fetched)
    ensures forall m, m' :: 0 <= m < m' < |Documents(site, urlPath, fetched)| ==>
      Documents(site, urlPath, fetched)[m].url != Documents(site, urlPath, fetched)[m'].url
  {
    var docs := Documents(site, urlPath, fetched);
    var ps := Positions(fetched, Writes(site, urlPath), |fetched|);
    DocumentsInOrder(site, urlPath, fetched);
    forall m, m' | 0 <= m < m' < |docs| ensures docs[m].url != docs[m'].url {
      assert Written(site, urlPath, fetched[ps[m]]) == Some(docs[m]);
      assert Written(site, urlPath, fetched[ps[m']]) == Some(docs[m']);
      assert ps[m] < ps[m'];
    }
  }

  /** The filter of lines 56-57 a link passes to be queued. */
  function Admits(visited: set<Url>): Url -> bool {
    (l: Url) => Eligible(l) && l !in visited
  }

  /** The links appended to the queue from one page (lines 54-58). */
  function Fresh(links: seq<Url>, visited: set<Url>): (r: seq<Url>)
    ensures forall l :: l in r <==> l in links && Eligible(l) && l !in visited
  {
    if links == [] then []
    else
      var n := |links|;
      var last := links[n - 1];
      var prior := Fresh(links[..n - 1], visited);
      assert forall l :: l in links <==> l in links[..n - 1] || l == last by {
        assert links == links[..n - 1] + [last];
      }
      if Eligible(last) && last !in visited then prior + [last] else prior
  }

  /** The admitted links in page order, repeats kept: `Fresh` is the filter
      of the page's links by `Admits`. */
  lemma {:induction false} FreshInOrder(links: seq<Url>, visited: set<Url>)
    ensures var ps := Positions(links, Admits(visited), |links|);
      |Fresh(links, visited)| == |ps| && forall m :: 0 <= m < |ps| ==> Fresh(links, visited)[m] == links[ps[m]]
  {
    if links != [] {
      var n, keep := |links|, Admits(visited);
      var last := links[n - 1];
      var ps0 := Positions(links, keep, n - 1);
      PositionsPrefix(links[..n - 1], links, keep, n - 1);
      FreshInOrder(links[..n - 1], visited);
      var f0 := Fresh(links[..n - 1], visited);
      assert |f0| == |ps0|;
      assert forall m :: 0 <= m < |ps0| ==> f0[m] == links[..n - 1][ps0[m]];
      var ps, f := if keep(last) then ps0 + [n - 1] else ps0, if keep(last) then f0 + [last] else f0;
      assert Positions(links, keep, n) == ps;
      assert Fresh(links, visited) == f;
      forall m | 0 <= m < |ps| ensures f[m] == links[ps[m]] {
        if m < |ps0| {
          assert f[m] == f0[m] && ps[m] == ps0[m];
          assert links[..n - 1][ps0[m]] == links[ps0[m]];
        }
      }
    }
  }

  /** Every URL the crawl can ever hold: the seed and every link of a page. */
  function Universe(site: Site, seed: Url): set<Url> {
    {seed} + set u, l | u in site.pages && site.pages[u].links.Some? && l in site.pages[u].links.value :: l
  }

  lemma DiscoveredInUniverse(site: Site, urlPath: Url -> string, seed: Url, u: Url)
    ensures forall l :: l in Discovered(site, urlPath, u) ==> l in Universe(site, seed)
  {
  }

  lemma RemoveMemberShrinks(a: set<Url>, b: set<Url>, x: Url)
    requires x in a && x !in b
    ensures |a - (b + {x})| < |a - b|
  {
    assert a - (b + {x}) == (a - b) - {x};
  }

  /** `x` is a link read from one of the first `n` loaded pages. */
  ghost predicate FoundBefore(site: Site, urlPath: Url -> string, fetched: seq<Url>, n: nat, x: Url)
    requires n <= |fetched|
  {
    exists j :: 0 <= j < n && x in Discovered(site, urlPath, fetched[j])
  }

  // The loop invariant of `Crawl`, clause by clause.

  /** `visited` is exactly the set of loaded URLs, each loaded once. */
  ghost predicate Seen(visited: set<Url>, fetched: seq<Url>) {
    (forall u :: u in visited <==> u in fetched) && NoDuplicates(fetched)
  }

  /** Before the first turn only the seed is queued; after it the seed was loaded first. */
  ghost predicate Started(seed: Url, fetched: seq<Url>, queue: seq<Url>) {
    (fetched == [] ==> queue == [seed]) && (fetched != [] ==> fetched[0] == seed)
  }

  /** Once the seed is loaded, every queued URL is eligible and was read from a loaded page. */
  ghost predicate QueueFound(site: Site, urlPath: Url -> string, fetched: seq<Url>, queue: seq<Url>) {
    fetched != [] ==> forall k :: 0 <= k < |queue| ==>
      Eligible(queue[k]) && FoundBefore(site, urlPath, fetched, |fetched|, queue[k])
  }

  /** Every loaded URL but the seed is eligible and was read from an earlier page. */
  ghost predicate FetchedFound(site: Site, urlPath: Url -> string, fetched: seq<Url>) {
    forall i :: 1 <= i < |fetched| ==>
      Eligible(fetched[i]) && FoundBefore(site, urlPath, fetched, i, fetched[i])
  }

  /** Every eligible link of a visited page is visited or still queued. */
  ghost predicate Frontier(site: Site, urlPath: Url -> string, visited: set<Url>, queue: seq<Url>) {
    forall u, l :: u in visited && l in Discovered(site, urlPath, u) && Eligible(l) ==>
      l in visited || l in queue
  }

  ghost predicate CrawlInvariant(site: Site, urlPath: Url -> string, seed: Url,
                           visited: set<Url>, fetched: seq<Url>, written: seq<Document>, queue: seq<Url>)
  {
    && Seen(visited, fetched)
    && Started(seed, fetched, queue)
    && QueueFound(site, urlPath, fetched, queue)
    && FetchedFound(site, urlPath, fetched)
    && Frontier(site, urlPath, visited, queue)
    && written == Documents(site, urlPath, fetched)
  }

  lemma FoundBeforeExtend(site: Site, urlPath: Url -> string, fetched: seq<Url>, u: Url, n: nat, x: Url)
    requires n <= |fetched|
    ensures FoundBefore(site, urlPath, fetched, n, x) ==> FoundBefore(site, urlPath, fetched + [u], n, x)
  {
    if FoundBefore(site, urlPath, fetched, n, x) {
      var j :| 0 <= j < n && x in Discovered(site, urlPath, fetched[j]);
      assert (fetched + [u])[j] == fetched[j];
    }
  }

  lemma SkipQueueFound(site: Site, urlPath: Url -> string, fetched: seq<Url>, queue: seq<Url>)
    requires queue != [] && QueueFound(site, urlPath, fetched, queue)
    ensures QueueFound(site, urlPath, fetched, queue[1..])
  {
    if fetched != [] {
      forall k | 0 <= k < |queue[1..]|
        ensures Eligible(queue[1..][k]) && FoundBefore(site, urlPath, fetched, |fetched|, queue[1..][k])
      {
        assert queue[1..][k] == queue[k + 1];
      }
    }
  }

  lemma SkipFrontier(site: Site, urlPath: Url -> string, visited: set<Url>, queue: seq<Url>)
    requires queue != [] && queue[0] in visited && Frontier(site, urlPath, visited, queue)
    ensures Frontier(site, urlPath, visited, queue[1..])
  {
    forall u, l | u in visited && l in Discovered(site, urlPath, u) && Eligible(l)
      ensures l in visited || l in queue[1..]
    {
      if l !in visited {
        assert l in queue && l != queue[0];
        var k :| 0 <= k < |queue| && queue[k] == l;
        assert queue[1..][k - 1] == l;
      }
    }
  }

  /** Skipping an already visited head keeps the invariant. */
  lemma SkipStep(site: Site, urlPath: Url -> string, seed: Url,
                 visited: set<Url>, fetched: seq<Url>, written: seq<Document>, queue: seq<Url>)
    requires queue != [] && queue[0] in visited
    requires CrawlInvariant(site, urlPath, seed, visited, fetched, written, queue)
    ensures CrawlInvariant(site, urlPath, seed, visited, fetched, written, queue[1..])
  {
    assert fetched != [];
    SkipQueueFound(site, urlPath, fetched, queue);
    SkipFrontier(site, urlPath, visited, queue);
  }

  lemma VisitSeen(visited: set<Url>, fetched: seq<Url>, url: Url)
    requires Seen(visited, fetched) && url !in visited
    ensures Seen(visited + {url}, fetched + [url])
  {
    var f := fetched + [url];
    forall i, j | 0 <= i < j < |f| ensures f[i] != f[j] {
      if j == |fetched| {
        assert f[i] == fetched[i];
        assert fetched[i] in visited;
      }
    }
  }

  lemma VisitQueueFound(site: Site, urlPath: Url -> string, seed: Url,
                        visited: set<Url>, fetched: seq<Url>, queue: seq<Url>)
    requires queue != [] && queue[0] !in visited
    requires Started(seed, fetched, queue) && QueueFound(site, urlPath, fetched, queue)
    ensures QueueFound(site, urlPath, fetched + [queue[0]],
      queue[1..] + Fresh(Discovered(site, urlPath, queue[0]), visited + {queue[0]}))
  {
    var url := queue[0];
    var f := fetched + [url];
    var found := Discovered(site, urlPath, url);
    var q := queue[1..] + Fresh(found, visited + {url});
    forall k | 0 <= k < |q| ensures Eligible(q[k]) && FoundBefore(site, urlPath, f, |f|, q[k]) {
      if k < |queue| - 1 {
        assert q[k] == queue[k + 1];
        assert fetched != [];
        FoundBeforeExtend(site, urlPath, fetched, url, |fetched|, q[k]);
        var j :| 0 <= j < |fetched| && q[k] in Discovered(site, urlPath, f[j]);
      } else {
        assert q[k] in Fresh(found, visited + {url});
        assert f[|fetched|] == url;
      }
    }
  }

  lemma VisitFetchedFound(site: Site, urlPath: Url -> string, seed: Url, fetched: seq<Url>, queue: seq<Url>)
    requires queue != []
    requires Started(seed, fetched, queue) && QueueFound(site, urlPath, fetched, queue)
    requires FetchedFound(site, urlPath, fetched)
    ensures FetchedFound(site, urlPath, fetched + [queue[0]])
  {
    var url := queue[0];
    var f := fetched + [url];
    forall i | 1 <= i < |f| ensures Eligible(f[i]) && FoundBefore(site, urlPath, f, i, f[i]) {
      FoundBeforeExtend(site, urlPath, fetched, url, i, f[i]);
      if i < |fetched| {
        assert f[i] == fetched[i];
      }
    }
  }

  lemma VisitFrontier(site: Site, urlPath: Url -> string, visited: set<Url>, queue: seq<Url>)
    requires queue != []
    requires Frontier(site, urlPath, visited, queue)
    ensures Frontier(site, urlPath, visited + {queue[0]},
      queue[1..] + Fresh(Discovered(site, urlPath, queue[0]), visited + {queue[0]}))
  {
    var url := queue[0];
    var v := visited + {url};
    var q := queue[1..] + Fresh(Discovered(site, urlPath, url), v);
    forall u, l | u in v && l in Discovered(site, urlPath, u) && Eligible(l)
      ensures l in v || l in q
    {
      if l !in v && u != url {
        assert l in queue;
        var k :| 0 <= k < |queue| && queue[k] == l;
        assert q[k - 1] == l;
      }
    }
  }

  lemma VisitDocuments(site: Site, urlPath: Url -> string, fetched: seq<Url>, url: Url)
    ensures Documents(site, urlPath, fetched + [url]) ==
      match Written(site, urlPath, url)
      case None => Documents(site, urlPath, fetched)
      case Some(d) => Documents(site, urlPath, fetched) + [d]
  {
    assert (fetched + [url])[..|fetched|] == fetched;
  }

  /** Loading an unvisited head keeps the invariant. */
  lemma VisitStep(site: Site, urlPath: Url -> string, seed: Url,
                  visited: set<Url>, fetched: seq<Url>, written: seq<Document>, queue: seq<Url>)
    requires queue != [] && queue[0] !in visited
    requires CrawlInvariant(site, urlPath, seed, visited, fetched, written, queue)
    ensures CrawlInvariant(site, urlPath, seed, visited + {queue[0]}, fetched + [queue[0]],
      Documents(site, urlPath, fetched + [queue[0]]),
      queue[1..] + Fresh(Discovered(site, urlPath, queue[0]), visited + {queue[0]}))
  {
    VisitSeen(visited, fetched, queue[0]);
    VisitQueueFound(site, urlPath, seed, visited, fetched, queue);
    VisitFetchedFound(site, urlPath, seed, fetched, queue);
    VisitFrontier(site, urlPath, visited, queue);
  }

  /** URLs the crawl may still hold lie in a fixed finite set. */
  ghost predicate Bounded(universe: set<Url>, visited: set<Url>, queue: seq<Url>) {
    visited <= universe && forall k :: 0 <= k < |queue| ==> queue[k] in universe
  }

  lemma VisitBounded(site: Site, urlPath: Url -> string, seed: Url, visited: set<Url>, queue: seq<Url>)
    requires queue != [] && queue[0] !in visited
    requires Bounded(Universe(site, seed), visited, queue)
    ensures |Universe(site, seed) - (visited + {queue[0]})| < |Universe(site, seed) - visited|
    ensures Bounded(Universe(site, seed), visited + {queue[0]},
      queue[1..] + Fresh(Discovered(site, urlPath, queue[0]), visited + {queue[0]}))
  {
    var universe := Universe(site, seed);
    RemoveMemberShrinks(universe, visited, queue[0]);
    SkipBounded(universe, visited, queue);
    DiscoveredInUniverse(site, urlPath, seed, queue[0]);
    var added := Fresh(Discovered(site, urlPath, queue[0]), visited + {queue[0]});
    assert forall l :: l in added ==> l in universe;
    BoundedJoin(universe, visited + {queue[0]}, queue[1..], added);
  }

  lemma BoundedJoin(universe: set<Url>, visited: set<Url>, q1: seq<Url>, q2: seq<Url>)
    requires visited <= universe
    requires forall k :: 0 <= k < |q1| ==> q1[k] in universe
    requires forall l :: l in q2 ==> l in universe
    ensures Bounded(universe, visited, q1 + q2)
  {
    forall k | 0 <= k < |q1 + q2| ensures (q1 + q2)[k] in universe {
      if k >= |q1| {
        assert (q1 + q2)[k] == q2[k - |q1|];
      }
    }
  }

  lemma SkipBounded(universe: set<Url>, visited: set<Url>, queue: seq<Url>)
    requires queue != [] && Bounded(universe, visited, queue)
    ensures Bounded(universe, visited, queue[1..])
  {
    forall k | 0 <= k < |queue| - 1 ensures queue[1..][k] in universe {
      assert queue[1..][k] == queue[k + 1];
    }
  }

  /** With the queue empty, the invariant gives the crawl's contract. */
  lemma Finished(site: Site, urlPath: Url -> string, seed: Url,
                 visited: set<Url>, fetched: seq<Url>, written: seq<Document>)
    requires CrawlInvariant(site, urlPath, seed, visited, fetched, written, [])
    ensures |fetched| > 0 && fetched[0] == seed
    ensures forall u, l :: u in visited && l in Discovered(site, urlPath, u) && Eligible(l) ==> l in visited
  {
    assert Started(seed, fetched, []);
    assert |[seed]| == 1;
    forall u, l | u in visited && l in Discovered(site, urlPath, u) && Eligible(l)
      ensures l in visited
    {
      assert Frontier(site, urlPath, visited, []);
      assert l in visited || l in [];
    }
  }

  // ---------------------------------------------------------------------
  // Breadth-first order

  /** Lexicographic order on (load index, link position) pairs. */
  predicate Before(a: (nat, nat), b: (nat, nat)) {
    a.0 < b.0 || (a.0 == b.0 && a.1 < b.1)
  }

  /** `at` is a link of a loaded page naming `x`: link `at.1` of the page
      loaded `at.0`-th. */
  predicate Names(site: Site, urlPath: Url -> string, fetched: seq<Url>, at: (nat, nat), x: Url) {
    at.0 < |fetched| && at.1 < |Discovered(site, urlPath, fetched[at.0])|
    && Discovered(site, urlPath, fetched[at.0])[at.1] == x
  }

  /** Where `x` was first read among the first `n` loaded pages: the earliest
      page listing it, and its first position in that page's links. */
  function FirstRead(site: Site, urlPath: Url -> string, fetched: seq<Url>, n: nat, x: Url): (r: Option<(nat, nat)>)
    requires n <= |fetched|
    ensures r.Some? ==> r.value.0 < n
  {
    if n == 0 then None
    else
      var prior := FirstRead(site, urlPath, fetched, n - 1, x);
      var links := Discovered(site, urlPath, fetched[n - 1]);
      if prior.Some? then prior
      else if x in links then Some((n - 1, FirstIndex(links, x)))
      else None
  }

  /** `FirstRead` finds `x` exactly when one of the first `n` pages lists it,
      the position found names `x`, and no position of those pages naming
      `x` comes before it. */
  lemma {:induction false} FirstReadIsFirst(site: Site, urlPath: Url -> string, fetched: seq<Url>, n: nat, x: Url)
    requires n <= |fetched|
    ensures FirstRead(site, urlPath, fetched, n, x).Some? ==>
      Names(site, urlPath, fetched, FirstRead(site, urlPath, fetched, n, x).value, x)
    ensures FirstRead(site, urlPath, fetched, n, x).None? <==>
      forall k :: 0 <= k < n ==> x !in Discovered(site, urlPath, fetched[k])
    ensures FirstRead(site, urlPath, fetched, n, x).Some? ==>
      forall at: (nat, nat) :: at.0 < n && Names(site, urlPath, fetched, at, x) ==>
        !Before(at, FirstRead(site, urlPath, fetched, n, x).value)
  {
    if n > 0 {
      FirstReadIsFirst(site, urlPath, fetched, n - 1, x);
    }
  }

  /** `x` was read before `y` on the loaded pages. */
  predicate ReadEarlier(site: Site, urlPath: Url -> string, fetched: seq<Url>, x: Url, y: Url) {
    var a := FirstRead(site, urlPath, fetched, |fetched|, x);
    var b := FirstRead(site, urlPath, fetched, |fetched|, y);
    a.Some? && b.Some? && Before(a.value, b.value)
  }

  lemma {:induction false} FirstReadExtend(site: Site, urlPath: Url -> string, fetched: seq<Url>, u: Url, n: nat, x: Url)
    requires n <= |fetched|
    ensures FirstRead(site, urlPath, fetched + [u], n, x) == FirstRead(site, urlPath, fetched, n, x)
  {
    if n > 0 {
      assert (fetched + [u])[n - 1] == fetched[n - 1];
      FirstReadExtend(site, urlPath, fetched, u, n - 1, x);
    }
  }

  /** Loading one more page does not move where an already read URL was first read. */
  lemma FirstReadStable(site: Site, urlPath: Url -> string, fetched: seq<Url>, u: Url, x: Url)
    requires FirstRead(site, urlPath, fetched, |fetched|, x).Some?
    ensures FirstRead(site, urlPath, fetched + [u], |fetched| + 1, x) == FirstRead(site, urlPath, fetched, |fetched|, x)
  {
    FirstReadExtend(site, urlPath, fetched, u, |fetched|, x);
  }

  // The second loop invariant of `Crawl`: `origins[m]` is the link position
  // from which `queue[m]` was appended.

  /** Once the seed is loaded, each queued URL carries the position it was appended from. */
  ghost predicate Tagged(site: Site, urlPath: Url -> string, fetched: seq<Url>, queue: seq<Url>, origins: seq<(nat, nat)>) {
    && (fetched == [] ==> origins == [])
    && (fetched != [] ==> |origins| == |queue|)
    && forall m :: 0 <= m < |origins| ==> m < |queue| && Names(site, urlPath, fetched, origins[m], queue[m])
  }

  /** The queue is in the order its URLs were read. */
  ghost predicate Ascending(origins: seq<(nat, nat)>) {
    forall m, m' :: 0 <= m < m' < |origins| ==> Before(origins[m], origins[m'])
  }

  /** Every eligible link of a loaded page not yet visited is queued from its own position. */
  ghost predicate Pending(site: Site, urlPath: Url -> string, visited: set<Url>, fetched: seq<Url>, origins: seq<(nat, nat)>) {
    forall k, p :: 0 <= k < |fetched| && 0 <= p < |Discovered(site, urlPath, fetched[k])|
      && Eligible(Discovered(site, urlPath, fetched[k])[p]) && Discovered(site, urlPath, fetched[k])[p] !in visited
      ==> (k, p) in origins
  }

  /** Every loaded URL but the seed was read before anything still queued,
      and they were loaded in the order read. */
  ghost predicate Ranked(site: Site, urlPath: Url -> string, fetched: seq<Url>, origins: seq<(nat, nat)>) {
    AllRead(site, urlPath, fetched) && ReadBefore(site, urlPath, fetched, origins) && ReadSorted(site, urlPath, fetched)
  }

  /** Every loaded URL but the seed was read from a loaded page. */
  ghost predicate AllRead(site: Site, urlPath: Url -> string, fetched: seq<Url>) {
    forall i :: 1 <= i < |fetched| ==> FirstRead(site, urlPath, fetched, |fetched|, fetched[i]).Some?
  }

  /** ... before every position a queued URL was appended from ... */
  ghost predicate ReadBefore(site: Site, urlPath: Url -> string, fetched: seq<Url>, origins: seq<(nat, nat)>) {
    forall i, m :: 1 <= i < |fetched| && 0 <= m < |origins| ==> ReadBeforeAt(site, urlPath, fetched, origins, i, m)
  }

  ghost predicate ReadBeforeAt(site: Site, urlPath: Url -> string, fetched: seq<Url>, origins: seq<(nat, nat)>, i: nat, m: nat)
    requires i < |fetched| && m < |origins|
  {
    FirstRead(site, urlPath, fetched, |fetched|, fetched[i]).Some?
    && Before(FirstRead(site, urlPath, fetched, |fetched|, fetched[i]).value, origins[m])
  }

  /** ... and in the order read. */
  ghost predicate ReadSorted(site: Site, urlPath: Url -> string, fetched: seq<Url>) {
    forall i, j :: 1 <= i < j < |fetched| ==> ReadEarlier(site, urlPath, fetched, fetched[i], fetched[j])
  }

  ghost predicate OrderInvariant(site: Site, urlPath: Url -> string, visited: set<Url>, fetched: seq<Url>,
                                 queue: seq<Url>, origins: seq<(nat, nat)>)
  {
    && Tagged(site, urlPath, fetched, queue, origins)
    && Ascending(origins)
    && Pending(site, urlPath, visited, fetched, origins)
    && Ranked(site, urlPath, fetched, origins)
  }

  ghost function Popped<T>(s: seq<T>): seq<T> {
    if s == [] then [] else s[1..]
  }

  /** The positions the links appended from the page loaded `k`-th come from. */
  ghost function Tags(k: nat, ps: seq<nat>): seq<(nat, nat)> {
    seq(|ps|, m requires 0 <= m < |ps| => (k, ps[m]))
  }

  /** The origins after loading the head: those of the rest of the queue,
      then those of the page's admitted links. */
  ghost function NextOrigins(fetched: seq<Url>, origins: seq<(nat, nat)>, links: seq<Url>, visited: set<Url>): seq<(nat, nat)> {
    Popped(origins) + Tags(|fetched|, Positions(links, Admits(visited), |links|))
  }

  lemma SkipTagged(site: Site, urlPath: Url -> string, fetched: seq<Url>, queue: seq<Url>, origins: seq<(nat, nat)>)
    requires queue != [] && fetched != [] && Tagged(site, urlPath, fetched, queue, origins)
    ensures Tagged(site, urlPath, fetched, queue[1..], Popped(origins))
  {
    var o := Popped(origins);
    assert o == origins[1..];
    forall m | 0 <= m < |o| ensures m < |queue[1..]| && Names(site, urlPath, fetched, o[m], queue[1..][m]) {
      assert o[m] == origins[m + 1];
    }
  }

  lemma SkipAscending(origins: seq<(nat, nat)>)
    requires Ascending(origins)
    ensures Ascending(Popped(origins))
  {
    var o := Popped(origins);
    forall m, m' | 0 <= m < m' < |o| ensures Before(o[m], o[m']) {
      assert o[m] == origins[m + 1] && o[m'] == origins[m' + 1];
    }
  }

  lemma SkipPending(site: Site, urlPath: Url -> string, visited: set<Url>, fetched: seq<Url>,
                    queue: seq<Url>, origins: seq<(nat, nat)>)
    requires queue != [] && queue[0] in visited && fetched != []
    requires Tagged(site, urlPath, fetched, queue, origins) && Pending(site, urlPath, visited, fetched, origins)
    ensures Pending(site, urlPath, visited, fetched, Popped(origins))
  {
    var o := Popped(origins);
    forall k, p | 0 <= k < |fetched| && 0 <= p < |Discovered(site, urlPath, fetched[k])|
      && Eligible(Discovered(site, urlPath, fetched[k])[p]) && Discovered(site, urlPath, fetched[k])[p] !in visited
      ensures (k, p) in o
    {
      var m :| 0 <= m < |origins| && origins[m] == (k, p);
      assert m != 0 by {
        assert Names(site, urlPath, fetched, origins[m], queue[m]);
      }
      assert o[m - 1] == (k, p);
    }
  }

  lemma SkipRanked(site: Site, urlPath: Url -> string, fetched: seq<Url>, origins: seq<(nat, nat)>)
    requires Ranked(site, urlPath, fetched, origins)
    ensures Ranked(site, urlPath, fetched, Popped(origins))
  {
    var o := Popped(origins);
    forall i, m | 1 <= i < |fetched| && 0 <= m < |o| ensures ReadBeforeAt(site, urlPath, fetched, o, i, m) {
      assert o[m] == origins[m + 1];
      assert ReadBeforeAt(site, urlPath, fetched, origins, i, m + 1);
    }
  }

  lemma OrderSkip(site: Site, urlPath: Url -> string, visited: set<Url>, fetched: seq<Url>,
                  queue: seq<Url>, origins: seq<(nat, nat)>)
    requires queue != [] && queue[0] in visited && fetched != []
    requires OrderInvariant(site, urlPath, visited, fetched, queue, origins)
    ensures OrderInvariant(site, urlPath, visited, fetched, queue[1..], Popped(origins))
  {
    SkipTagged(site, urlPath, fetched, queue, origins);
    SkipAscending(origins);
    SkipPending(site, urlPath, visited, fetched, queue, origins);
    SkipRanked(site, urlPath, fetched, origins);
  }

  /** An unvisited head is first read exactly where it was queued from: no
      earlier position names it, or it would be queued ahead of the head. */
  lemma HeadRead(site: Site, urlPath: Url -> string, visited: set<Url>, fetched: seq<Url>,
                 queue: seq<Url>, origins: seq<(nat, nat)>)
    requires queue != [] && queue[0] !in visited && fetched != [] && Eligible(queue[0])
    requires Tagged(site, urlPath, fetched, queue, origins) && Ascending(origins)
    requires Pending(site, urlPath, visited, fetched, origins)
    ensures FirstRead(site, urlPath, fetched, |fetched|, queue[0]) == Some(origins[0])
  {
    var u := queue[0];
    var o := origins[0];
    assert Names(site, urlPath, fetched, o, u);
    assert u in Discovered(site, urlPath, fetched[o.0]);
    FirstReadIsFirst(site, urlPath, fetched, |fetched|, u);
    var r := FirstRead(site, urlPath, fetched, |fetched|, u);
    assert r.Some?;
    var at := r.value;
    assert !Before(o, at);
    assert Discovered(site, urlPath, fetched[at.0])[at.1] == u;
    assert (at.0, at.1) in origins;
    var m :| 0 <= m < |origins| && origins[m] == (at.0, at.1);
    if m != 0 {
      assert false;
    }
  }

  /** A position of a loaded page still names the same link after one more load. */
  lemma NamesExtend(site: Site, urlPath: Url -> string, fetched: seq<Url>, u: Url, at: (nat, nat), x: Url)
    requires Names(site, urlPath, fetched, at, x)
    ensures Names(site, urlPath, fetched + [u], at, x)
  {
    assert (fetched + [u])[at.0] == fetched[at.0];
  }

  /** The `t`-th admitted link of the newly loaded page is named by its tag. */
  lemma NamesAdded(site: Site, urlPath: Url -> string, fetched: seq<Url>, u: Url, ps: seq<nat>, t: nat)
    requires t < |ps| && ps[t] < |Discovered(site, urlPath, u)|
    ensures Names(site, urlPath, fetched + [u], Tags(|fetched|, ps)[t], Discovered(site, urlPath, u)[ps[t]])
  {
    assert (fetched + [u])[|fetched|] == u;
    assert Tags(|fetched|, ps)[t] == (|fetched|, ps[t]);
  }

  lemma VisitTagged(site: Site, urlPath: Url -> string, seed: Url, visited: set<Url>, fetched: seq<Url>,
                    queue: seq<Url>, origins: seq<(nat, nat)>)
    requires queue != [] && Started(seed, fetched, queue)
    requires Tagged(site, urlPath, fetched, queue, origins)
    ensures Tagged(site, urlPath, fetched + [queue[0]],
      queue[1..] + Fresh(Discovered(site, urlPath, queue[0]), visited + {queue[0]}),
      NextOrigins(fetched, origins, Discovered(site, urlPath, queue[0]), visited + {queue[0]}))
  {
    var u := queue[0];
    var links := Discovered(site, urlPath, u);
    var v := visited + {u};
    var ps := Positions(links, Admits(v), |links|);
    var old1 := Popped(origins);
    assert |old1| == |queue| - 1 by {
      if fetched == [] { assert queue == [seed]; }
    }
    FreshInOrder(links, v);
    TaggedRest(site, urlPath, fetched, u, queue, origins);
    TaggedAdded(site, urlPath, fetched, u, ps, links, Fresh(links, v));
    TaggedJoin(site, urlPath, fetched + [u], queue[1..], old1, Fresh(links, v), Tags(|fetched|, ps));
  }

  /** Behind the loaded head, each queued URL keeps its origin. */
  lemma TaggedRest(site: Site, urlPath: Url -> string, fetched: seq<Url>, u: Url,
                   queue: seq<Url>, origins: seq<(nat, nat)>)
    requires queue != [] && Tagged(site, urlPath, fetched, queue, origins)
    ensures forall m :: 0 <= m < |Popped(origins)| ==>
      m < |queue[1..]| && Names(site, urlPath, fetched + [u], Popped(origins)[m], queue[1..][m])
  {
    if origins != [] {
      var o := origins[1..];
      assert Popped(origins) == o;
      forall m | 0 <= m < |o| ensures m < |queue[1..]| && Names(site, urlPath, fetched + [u], o[m], queue[1..][m]) {
        assert o[m] == origins[m + 1] && queue[1..][m] == queue[m + 1];
        NamesExtend(site, urlPath, fetched, u, origins[m + 1], queue[m + 1]);
      }
    } else {
      assert |Popped(origins)| == 0;
    }
  }

  /** The links appended from the loaded page carry their own positions. */
  lemma TaggedAdded(site: Site, urlPath: Url -> string, fetched: seq<Url>, u: Url,
                    ps: seq<nat>, links: seq<Url>, added: seq<Url>)
    requires links == Discovered(site, urlPath, u)
    requires |added| == |ps| && forall t :: 0 <= t < |ps| ==> ps[t] < |links| && added[t] == links[ps[t]]
    ensures forall t :: 0 <= t < |ps| ==> Names(site, urlPath, fetched + [u], Tags(|fetched|, ps)[t], added[t])
  {
    forall t | 0 <= t < |ps| ensures Names(site, urlPath, fetched + [u], Tags(|fetched|, ps)[t], added[t]) {
      NamesAdded(site, urlPath, fetched, u, ps, t);
    }
  }

  lemma TaggedJoin(site: Site, urlPath: Url -> string, f: seq<Url>, q1: seq<Url>, o1: seq<(nat, nat)>,
                   q2: seq<Url>, o2: seq<(nat, nat)>)
    requires f != [] && |o1| == |q1| && |o2| == |q2|
    requires forall m :: 0 <= m < |o1| ==> Names(site, urlPath, f, o1[m], q1[m])
    requires forall m :: 0 <= m < |o2| ==> Names(site, urlPath, f, o2[m], q2[m])
    ensures Tagged(site, urlPath, f, q1 + q2, o1 + o2)
  {
    forall m | 0 <= m < |o1 + o2| ensures m < |q1 + q2| && Names(site, urlPath, f, (o1 + o2)[m], (q1 + q2)[m]) {
      if m >= |o1| {
        assert (o1 + o2)[m] == o2[m - |o1|] && (q1 + q2)[m] == q2[m - |o1|];
      }
    }
  }

  lemma VisitAscending(site: Site, urlPath: Url -> string, fetched: seq<Url>,
                       queue: seq<Url>, origins: seq<(nat, nat)>, links: seq<Url>, v: set<Url>)
    requires Tagged(site, urlPath, fetched, queue, origins) && Ascending(origins)
    ensures Ascending(NextOrigins(fetched, origins, links, v))
  {
    var old1 := Popped(origins);
    var ps := Positions(links, Admits(v), |links|);
    var o := NextOrigins(fetched, origins, links, v);
    forall m, m' | 0 <= m < m' < |o| ensures Before(o[m], o[m']) {
      if m' < |old1| {
        assert o[m] == origins[m + 1] && o[m'] == origins[m' + 1];
      } else if m < |old1| {
        assert o[m] == origins[m + 1];
        assert Names(site, urlPath, fetched, origins[m + 1], queue[m + 1]);
        assert o[m'] == (|fetched|, ps[m' - |old1|]);
      } else {
        assert o[m] == (|fetched|, ps[m - |old1|]) && o[m'] == (|fetched|, ps[m' - |old1|]);
      }
    }
  }

  /** An admitted link of the newly loaded page is tagged with its own position. */
  lemma PendingAdded(fetched: seq<Url>, links: seq<Url>, v: set<Url>, p: nat)
    requires p < |links| && Eligible(links[p]) && links[p] !in v
    ensures (|fetched|, p) in Tags(|fetched|, Positions(links, Admits(v), |links|))
  {
    var ps := Positions(links, Admits(v), |links|);
    assert Admits(v)(links[p]);
    PositionsComplete(links, Admits(v), |links|, p);
    var t :| 0 <= t < |ps| && ps[t] == p;
    assert Tags(|fetched|, ps)[t] == (|fetched|, p);
  }

  /** A still unvisited link of an earlier page stays queued behind the head. */
  lemma PendingRest(site: Site, urlPath: Url -> string, visited: set<Url>, fetched: seq<Url>,
                    queue: seq<Url>, origins: seq<(nat, nat)>, k: nat, p: nat)
    requires queue != []
    requires Tagged(site, urlPath, fetched, queue, origins) && Pending(site, urlPath, visited, fetched, origins)
    requires k < |fetched| && p < |Discovered(site, urlPath, fetched[k])|
    requires Eligible(Discovered(site, urlPath, fetched[k])[p])
    requires Discovered(site, urlPath, fetched[k])[p] !in visited + {queue[0]}
    ensures (k, p) in Popped(origins)
  {
    var m :| 0 <= m < |origins| && origins[m] == (k, p);
    assert m != 0 by {
      assert Names(site, urlPath, fetched, origins[m], queue[m]);
    }
    assert Popped(origins)[m - 1] == (k, p);
  }

  /** An admitted, unvisited link of an earlier page, once the head is loaded. */
  lemma PendingOld(site: Site, urlPath: Url -> string, visited: set<Url>, fetched: seq<Url>,
                   queue: seq<Url>, origins: seq<(nat, nat)>, k: nat, p: nat)
    requires queue != []
    requires Tagged(site, urlPath, fetched, queue, origins) && Pending(site, urlPath, visited, fetched, origins)
    requires k < |fetched| && p < |Discovered(site, urlPath, (fetched + [queue[0]])[k])|
    requires Eligible(Discovered(site, urlPath, (fetched + [queue[0]])[k])[p])
    requires Discovered(site, urlPath, (fetched + [queue[0]])[k])[p] !in visited + {queue[0]}
    ensures (k, p) in NextOrigins(fetched, origins, Discovered(site, urlPath, queue[0]), visited + {queue[0]})
  {
    assert (fetched + [queue[0]])[k] == fetched[k];
    PendingRest(site, urlPath, visited, fetched, queue, origins, k, p);
  }

  /** An admitted, unvisited link of the page just loaded. */
  lemma PendingNew(site: Site, urlPath: Url -> string, visited: set<Url>, fetched: seq<Url>, u: Url,
                   origins: seq<(nat, nat)>, p: nat)
    requires p < |Discovered(site, urlPath, (fetched + [u])[|fetched|])|
    requires Eligible(Discovered(site, urlPath, (fetched + [u])[|fetched|])[p])
    requires Discovered(site, urlPath, (fetched + [u])[|fetched|])[p] !in visited + {u}
    ensures (|fetched|, p) in NextOrigins(fetched, origins, Discovered(site, urlPath, u), visited + {u})
  {
    assert (fetched + [u])[|fetched|] == u;
    PendingAdded(fetched, Discovered(site, urlPath, u), visited + {u}, p);
  }

  /** One admitted, unvisited link of a loaded page, once the head is loaded. */
  lemma PendingOne(site: Site, urlPath: Url -> string, visited: set<Url>, fetched: seq<Url>,
                   queue: seq<Url>, origins: seq<(nat, nat)>, k: nat, p: nat)
    requires queue != []
    requires Tagged(site, urlPath, fetched, queue, origins) && Pending(site, urlPath, visited, fetched, origins)
    requires k < |fetched| + 1 && p < |Discovered(site, urlPath, (fetched + [queue[0]])[k])|
    requires Eligible(Discovered(site, urlPath, (fetched + [queue[0]])[k])[p])
    requires Discovered(site, urlPath, (fetched + [queue[0]])[k])[p] !in visited + {queue[0]}
    ensures (k, p) in NextOrigins(fetched, origins, Discovered(site, urlPath, queue[0]), visited + {queue[0]})
  {
    if k < |fetched| {
      PendingOld(site, urlPath, visited, fetched, queue, origins, k, p);
    } else {
      PendingNew(site, urlPath, visited, fetched, queue[0], origins, p);
    }
  }

  lemma VisitPending(site: Site, urlPath: Url -> string, visited: set<Url>, fetched: seq<Url>,
                     queue: seq<Url>, origins: seq<(nat, nat)>)
    requires queue != [] && queue[0] !in visited
    requires Tagged(site, urlPath, fetched, queue, origins) && Pending(site, urlPath, visited, fetched, origins)
    ensures Pending(site, urlPath, visited + {queue[0]}, fetched + [queue[0]],
      NextOrigins(fetched, origins, Discovered(site, urlPath, queue[0]), visited + {queue[0]}))
  {
    var f := fetched + [queue[0]];
    var v := visited + {queue[0]};
    forall k, p | 0 <= k < |f| && 0 <= p < |Discovered(site, urlPath, f[k])|
      && Eligible(Discovered(site, urlPath, f[k])[p]) && Discovered(site, urlPath, f[k])[p] !in v
      ensures (k, p) in NextOrigins(fetched, origins, Discovered(site, urlPath, queue[0]), v)
    {
      PendingOne(site, urlPath, visited, fetched, queue, origins, k, p);
    }
  }

  /** Where a loaded URL was first read, once `u` is loaded too: an earlier
      URL keeps its place, and `u`'s is the head origin. */
  lemma RankAfterLoad(site: Site, urlPath: Url -> string, fetched: seq<Url>, u: Url, origins: seq<(nat, nat)>, i: nat)
    requires 1 <= i <= |fetched| && origins != []
    requires AllRead(site, urlPath, fetched)
    requires FirstRead(site, urlPath, fetched, |fetched|, u) == Some(origins[0])
    ensures FirstRead(site, urlPath, fetched + [u], |fetched| + 1, (fetched + [u])[i]).Some?
    ensures FirstRead(site, urlPath, fetched + [u], |fetched| + 1, (fetched + [u])[i]).value.0 < |fetched|
    ensures i < |fetched| ==>
      FirstRead(site, urlPath, fetched + [u], |fetched| + 1, (fetched + [u])[i])
      == FirstRead(site, urlPath, fetched, |fetched|, fetched[i])
    ensures i == |fetched| ==>
      FirstRead(site, urlPath, fetched + [u], |fetched| + 1, (fetched + [u])[i]) == Some(origins[0])
  {
    var f := fetched + [u];
    if i < |fetched| {
      assert f[i] == fetched[i];
      FirstReadStable(site, urlPath, fetched, u, fetched[i]);
    } else {
      assert f[i] == u;
      FirstReadStable(site, urlPath, fetched, u, u);
    }
  }

  /** Every loaded URL but the seed still has a place where it was first read. */
  lemma RankedRead(site: Site, urlPath: Url -> string, fetched: seq<Url>, u: Url, origins: seq<(nat, nat)>)
    requires AllRead(site, urlPath, fetched)
    requires fetched == [] ==> origins == []
    requires fetched != [] ==> origins != [] && FirstRead(site, urlPath, fetched, |fetched|, u) == Some(origins[0])
    ensures AllRead(site, urlPath, fetched + [u])
  {
    forall i | 1 <= i < |fetched + [u]|
      ensures FirstRead(site, urlPath, fetched + [u], |fetched + [u]|, (fetched + [u])[i]).Some?
    {
      RankAfterLoad(site, urlPath, fetched, u, origins, i);
    }
  }

  /** One loaded URL against one new origin. */
  lemma RankedBeforeOne(site: Site, urlPath: Url -> string, fetched: seq<Url>, u: Url, origins: seq<(nat, nat)>,
                        ps: seq<nat>, i: nat, m: nat)
    requires AllRead(site, urlPath, fetched) && ReadBefore(site, urlPath, fetched, origins) && Ascending(origins)
    requires fetched == [] ==> origins == []
    requires fetched != [] ==> origins != [] && FirstRead(site, urlPath, fetched, |fetched|, u) == Some(origins[0])
    requires 1 <= i < |fetched + [u]| && m < |Popped(origins) + Tags(|fetched|, ps)|
    ensures ReadBeforeAt(site, urlPath, fetched + [u], Popped(origins) + Tags(|fetched|, ps), i, m)
  {
    var n := |fetched|;
    var old1, tags := Popped(origins), Tags(n, ps);
    RankAfterLoad(site, urlPath, fetched, u, origins, i);
    var r := FirstRead(site, urlPath, fetched + [u], n + 1, (fetched + [u])[i]).value;
    if m < |old1| {
      assert (old1 + tags)[m] == origins[m + 1];
      var before := if i == n then origins[0] else FirstRead(site, urlPath, fetched, n, fetched[i]).value;
      assert r == before;
      BeforeOrigin(site, urlPath, fetched, origins, i, m + 1);
    } else {
      assert (old1 + tags)[m] == tags[m - |old1|] == (n, ps[m - |old1|]);
    }
  }

  /** The head's place, or that of an earlier loaded URL, precedes a later origin. */
  lemma BeforeOrigin(site: Site, urlPath: Url -> string, fetched: seq<Url>, origins: seq<(nat, nat)>, i: nat, m: nat)
    requires ReadBefore(site, urlPath, fetched, origins) && Ascending(origins)
    requires 1 <= i <= |fetched| && 0 < m < |origins|
    ensures i < |fetched| ==>
              FirstRead(site, urlPath, fetched, |fetched|, fetched[i]).Some? &&
              Before(FirstRead(site, urlPath, fetched, |fetched|, fetched[i]).value, origins[m])
    ensures Before(origins[0], origins[m])
  {
    if i < |fetched| {
      assert ReadBeforeAt(site, urlPath, fetched, origins, i, m);
    }
  }

  /** Those places all come before the new origins: the old ones behind
      the head, and the positions on the page just loaded. */
  lemma RankedBefore(site: Site, urlPath: Url -> string, fetched: seq<Url>, u: Url, origins: seq<(nat, nat)>, ps: seq<nat>)
    requires AllRead(site, urlPath, fetched) && ReadBefore(site, urlPath, fetched, origins) && Ascending(origins)
    requires fetched == [] ==> origins == []
    requires fetched != [] ==> origins != [] && FirstRead(site, urlPath, fetched, |fetched|, u) == Some(origins[0])
    ensures ReadBefore(site, urlPath, fetched + [u], Popped(origins) + Tags(|fetched|, ps))
  {
    var f, o := fetched + [u], Popped(origins) + Tags(|fetched|, ps);
    forall i, m | 1 <= i < |f| && 0 <= m < |o| ensures ReadBeforeAt(site, urlPath, f, o, i, m) {
      RankedBeforeOne(site, urlPath, fetched, u, origins, ps, i, m);
    }
  }

  /** The loaded URLs stay sorted by where they were first read, `u` last. */
  lemma RankedSorted(site: Site, urlPath: Url -> string, fetched: seq<Url>, u: Url, origins: seq<(nat, nat)>)
    requires AllRead(site, urlPath, fetched) && ReadBefore(site, urlPath, fetched, origins) && ReadSorted(site, urlPath, fetched)
    requires fetched == [] ==> origins == []
    requires fetched != [] ==> origins != [] && FirstRead(site, urlPath, fetched, |fetched|, u) == Some(origins[0])
    ensures ReadSorted(site, urlPath, fetched + [u])
  {
    var n, f := |fetched|, fetched + [u];
    forall i, j | 1 <= i < j < |f| ensures ReadEarlier(site, urlPath, f, f[i], f[j]) {
      RankAfterLoad(site, urlPath, fetched, u, origins, i);
      RankAfterLoad(site, urlPath, fetched, u, origins, j);
      if j < n {
        assert ReadEarlier(site, urlPath, fetched, fetched[i], fetched[j]);
      } else {
        assert ReadBeforeAt(site, urlPath, fetched, origins, i, 0);
      }
    }
  }

  /** The ranking survives loading `u`, when `u` was first read where the
      head of the origins says and the page's links are tagged after all
      earlier positions. */
  lemma RankedStep(site: Site, urlPath: Url -> string, fetched: seq<Url>, u: Url, origins: seq<(nat, nat)>, ps: seq<nat>)
    requires Ranked(site, urlPath, fetched, origins) && Ascending(origins)
    requires forall m :: 0 <= m < |origins| ==> origins[m].0 < |fetched|
    requires fetched == [] ==> origins == []
    requires fetched != [] ==> origins != [] && FirstRead(site, urlPath, fetched, |fetched|, u) == Some(origins[0])
    ensures Ranked(site, urlPath, fetched + [u], Popped(origins) + Tags(|fetched|, ps))
  {
    RankedRead(site, urlPath, fetched, u, origins);
    RankedBefore(site, urlPath, fetched, u, origins, ps);
    RankedSorted(site, urlPath, fetched, u, origins);
  }

  lemma VisitRanked(site: Site, urlPath: Url -> string, seed: Url, visited: set<Url>, fetched: seq<Url>,
                    queue: seq<Url>, origins: seq<(nat, nat)>)
    requires queue != [] && queue[0] !in visited
    requires Started(seed, fetched, queue) && QueueFound(site, urlPath, fetched, queue)
    requires OrderInvariant(site, urlPath, visited, fetched, queue, origins)
    ensures Ranked(site, urlPath, fetched + [queue[0]],
      NextOrigins(fetched, origins, Discovered(site, urlPath, queue[0]), visited + {queue[0]}))
  {
    var links := Discovered(site, urlPath, queue[0]);
    if fetched != [] {
      HeadRead(site, urlPath, visited, fetched, queue, origins);
    }
    forall m | 0 <= m < |origins| ensures origins[m].0 < |fetched| {
      assert Names(site, urlPath, fetched, origins[m], queue[m]);
    }
    RankedStep(site, urlPath, fetched, queue[0], origins, Positions(links, Admits(visited + {queue[0]}), |links|));
  }

  /** Loading an unvisited head keeps the order invariant. */
  lemma OrderVisit(site: Site, urlPath: Url -> string, seed: Url, visited: set<Url>, fetched: seq<Url>,
                   queue: seq<Url>, origins: seq<(nat, nat)>)
    requires queue != [] && queue[0] !in visited
    requires Started(seed, fetched, queue) && QueueFound(site, urlPath, fetched, queue)
    requires OrderInvariant(site, urlPath, visited, fetched, queue, origins)
    ensures OrderInvariant(site, urlPath, visited + {queue[0]}, fetched + [queue[0]],
      queue[1..] + Fresh(Discovered(site, urlPath, queue[0]), visited + {queue[0]}),
      NextOrigins(fetched, origins, Discovered(site, urlPath, queue[0]), visited + {queue[0]}))
  {
    VisitTagged(site, urlPath, seed, visited, fetched, queue, origins);
    VisitAscending(site, urlPath, fetched, queue, origins, Discovered(site, urlPath, queue[0]), visited + {queue[0]});
    VisitPending(site, urlPath, visited, fetched, queue, origins);
    VisitRanked(site, urlPath, seed, visited, fetched, queue, origins);
  }

  // ---------------------------------------------------------------------
  // One turn of the loop

  /** All three invariants of the crawl loop. */
  ghost predicate Loop(site: Site, urlPath: Url -> string, seed: Url, universe: set<Url>, visited: set<Url>,
                       fetched: seq<Url>, written: seq<Document>, queue: seq<Url>, origins: seq<(nat, nat)>)
  {
    && CrawlInvariant(site, urlPath, seed, visited, fetched, written, queue)
    && OrderInvariant(site, urlPath, visited, fetched, queue, origins)
    && Bounded(universe, visited, queue)
  }

  /** A turn whose head was already visited only drops it. */
  lemma SkipTurn(site: Site, urlPath: Url -> string, seed: Url, universe: set<Url>, visited: set<Url>, fetched: seq<Url>,
                 written: seq<Document>, queue: seq<Url>, origins: seq<(nat, nat)>)
    requires queue != [] && queue[0] in visited && universe == Universe(site, seed)
    requires Loop(site, urlPath, seed, universe, visited, fetched, written, queue, origins)
    ensures Loop(site, urlPath, seed, universe, visited, fetched, written, queue[1..], Popped(origins))
  {
    SkipStep(site, urlPath, seed, visited, fetched, written, queue);
    OrderSkip(site, urlPath, visited, fetched, queue, origins);
    SkipBounded(Universe(site, seed), visited, queue);
  }

  /** A turn whose head is new loads it, writes its document if it can, and
      queues its admitted links; fewer URLs of the universe remain unvisited. */
  lemma VisitTurn(site: Site, urlPath: Url -> string, seed: Url, universe: set<Url>, visited: set<Url>, fetched: seq<Url>,
                  written: seq<Document>, queue: seq<Url>, origins: seq<(nat, nat)>)
    requires queue != [] && queue[0] !in visited && universe == Universe(site, seed)
    requires Loop(site, urlPath, seed, universe, visited, fetched, written, queue, origins)
    ensures Written(site, urlPath, queue[0]).None? ==>
      Loop(site, urlPath, seed, universe, visited + {queue[0]}, fetched + [queue[0]], written,
        queue[1..] + Fresh(Discovered(site, urlPath, queue[0]), visited + {queue[0]}),
        NextOrigins(fetched, origins, Discovered(site, urlPath, queue[0]), visited + {queue[0]}))
    ensures Written(site, urlPath, queue[0]).Some? ==>
      Loop(site, urlPath, seed, universe, visited + {queue[0]}, fetched + [queue[0]],
        written + [Written(site, urlPath, queue[0]).value],
        queue[1..] + Fresh(Discovered(site, urlPath, queue[0]), visited + {queue[0]}),
        NextOrigins(fetched, origins, Discovered(site, urlPath, queue[0]), visited + {queue[0]}))
    ensures |universe - (visited + {queue[0]})| < |universe - visited|
  {
    VisitStep(site, urlPath, seed, visited, fetched, written, queue);
    OrderVisit(site, urlPath, seed, visited, fetched, queue, origins);
    VisitBounded(site, urlPath, seed, visited, queue);
    VisitDocuments(site, urlPath, fetched, queue[0]);
  }

  /** Before the first turn: nothing visited, only the seed queued. */
  lemma Begin(site: Site, urlPath: Url -> string, seed: Url)
    ensures Loop(site, urlPath, seed, Universe(site, seed), {}, [], [], [seed], [])
  {
  }

  /** With the queue empty, the invariants give the crawl's contract. */
  lemma Done(site: Site, urlPath: Url -> string, seed: Url, universe: set<Url>, visited: set<Url>,
             fetched: seq<Url>, written: seq<Document>, origins: seq<(nat, nat)>)
    requires Loop(site, urlPath, seed, universe, visited, fetched, written, [], origins)
    ensures |fetched| > 0 && fetched[0] == seed
    ensures NoDuplicates(fetched)
    ensures forall u :: u in visited <==> u in fetched
    ensures forall i :: 1 <= i < |fetched| ==> Eligible(fetched[i])
    ensures forall i :: 1 <= i < |fetched| ==> FoundBefore(site, urlPath, fetched, i, fetched[i])
    ensures forall u, l :: u in visited && l in Discovered(site, urlPath, u) && Eligible(l) ==> l in visited
    ensures forall i, j :: 1 <= i < j < |fetched| ==> ReadEarlier(site, urlPath, fetched, fetched[i], fetched[j])
    ensures written == Documents(site, urlPath, fetched)
  {
    Finished(site, urlPath, seed, visited, fetched, written);
  }

  /** `scrape_page(page, seed)`: pops the queue head, skips it if visited,
      otherwise marks it visited, loads it, writes its document and appends
      its fresh eligible links. Returns the visited set, the URLs in the
      order they were loaded, and the documents in the order written. */
  method Crawl(site: Site, urlPath: Url -> string, seed: Url)
    returns (visited: set<Url>, fetched: seq<Url>, written: seq<Document>)
    // each URL is loaded at most once, the seed first
    ensures |fetched| > 0 && fetched[0] == seed
    ensures NoDuplicates(fetched)
    ensures forall u :: u in visited <==> u in fetched
    // every other loaded URL passed the filter and was read from an earlier page
    ensures forall i :: 1 <= i < |fetched| ==> Eligible(fetched[i])
    ensures forall i :: 1 <= i < |fetched| ==> FoundBefore(site, urlPath, fetched, i, fetched[i])
    // no eligible link of a page whose links were read is missed
    ensures forall u, l :: u in visited && l in Discovered(site, urlPath, u) && Eligible(l) ==> l in visited
    // breadth-first: pages load in the order their URLs were first read,
    // by the page they were read on, then by position on that page
    ensures forall i, j :: 1 <= i < j < |fetched| ==> ReadEarlier(site, urlPath, fetched, fetched[i], fetched[j])
    // the files are exactly those of the loaded pages, in load order
    ensures written == Documents(site, urlPath, fetched)
  {
    visited := {};
    fetched := [];
    written := [];
    var queue := [seed];
    ghost var universe := Universe(site, seed);
    ghost var origins: seq<(nat, nat)> := [];
    Begin(site, urlPath, seed);
    while queue != []
      invariant Loop(site, urlPath, seed, universe, visited, fetched, written, queue, origins)
      decreases |universe - visited|, |queue|
    {
      var url := queue[0];
      if url in visited {
        SkipTurn(site, urlPath, seed, universe, visited, fetched, written, queue, origins);
        queue := queue[1..];
        origins := Popped(origins);
      } else {
        VisitTurn(site, urlPath, seed, universe, visited, fetched, written, queue, origins);
        origins := NextOrigins(fetched, origins, Discovered(site, urlPath, url), visited + {url});
        visited := visited + {url};
        fetched := fetched + [url];
        match Written(site, urlPath, url) {
          case None =>
          case Some(d) => written := written + [d];
        }
        var found := Discovered(site, urlPath, url);
        queue := queue[1..] + Fresh(found, visited);
      }
    }
    Done(site, urlPath, seed, universe, visited, fetched, written, origins);
  }

  /** The FIFO queue is what makes the order breadth-first: when the seed
      `s` links to `a` and then `b`, and `a` links to `c`, the depth-first
      order `s, a, c, b` breaks `Crawl`'s order clause, because `c` was
      first read on the second page and `b` already on the first. */
  lemma DepthFirstOrderExcluded(site: Site, urlPath: Url -> string, s: Url, a: Url, b: Url, c: Url)
    requires Discovered(site, urlPath, s) == [a, b] && Discovered(site, urlPath, a) == [c]
    requires c != a && c != b
    ensures !ReadEarlier(site, urlPath, [s, a, c, b], c, b)
  {
    var f := [s, a, c, b];
    FirstReadIsFirst(site, urlPath, f, |f|, b);
    assert Names(site, urlPath, f, (0, 1), b);
    FirstReadIsFirst(site, urlPath, f, |f|, c);
    var rc := FirstRead(site, urlPath, f, |f|, c);
    assert rc.Some? ==> Discovered(site, urlPath, f[rc.value.0])[rc.value.1] == c;
  }

  // ---------------------------------------------------------------------
  // A two-page site

  const StartPage: Url := ScopePrefix
  const NextPage: Url := ScopePrefix + "next"
  const OtherPage: Url := "https://other.example.com/x"

  /** A site whose start page links to `next` and `other`, and whose `next` page links nowhere. */
  function TwoPageSite(start: Url, next: Url, other: Url): Site {
    Site(map[start := Render("start", Some([next, other])),
             next := Render("next", Some([]))], {})
  }

  /** On a site where every write succeeds, a page's discovered links are its extracted ones. */
  lemma AllWritableLinks(site: Site, urlPath: Url -> string, u: Url)
    requires site.unwritable == {}
    ensures Discovered(site, urlPath, u) ==
      if u in site.pages && site.pages[u].links.Some? then site.pages[u].links.value else []
  {
    assert urlPath(u) !in site.unwritable;
  }

  lemma TwoPageEligible()
    ensures Eligible(NextPage) && !Eligible(OtherPage) && StartPage != NextPage
  {
    assert NextPage[..|ScopePrefix|] == ScopePrefix;
    assert OtherPage[8] != ScopePrefix[8];
    assert |StartPage| != |NextPage|;
    forall k | 0 <= k < |ImageExtensions| ensures !IsSuffix(ImageExtensions[k], NextPage) {
      var e := ImageExtensions[k];
      assert NextPage[|NextPage| - 1] == 't';
      assert e[|e| - 1] != 't';
    }
  }

  lemma TwoPageLinks(start: Url, next: Url, other: Url, urlPath: Url -> string)
    requires start != next
    ensures next in Discovered(TwoPageSite(start, next, other), urlPath, start)
    ensures forall u, l :: l in Discovered(TwoPageSite(start, next, other), urlPath, u) ==> l == next || l == other
  {
    var site := TwoPageSite(start, next, other);
    AllWritableLinks(site, urlPath, start);
    assert site.pages[start].links.value == [next, other];
    forall u, l | l in Discovered(site, urlPath, u) ensures l == next || l == other {
      AllWritableLinks(site, urlPath, u);
    }
  }

  /** A path oracle for the example; the file names play no part in it. */
  function WholeUrl(u: Url): string {
    u
  }

  /** When the start page's only eligible link is `next` and no page links
      anywhere else eligible, the crawl's contract pins the outcome down. */
  lemma OnlyTwoLoaded(site: Site, urlPath: Url -> string, start: Url, next: Url, other: Url,
                      visited: set<Url>, fetched: seq<Url>)
    requires Eligible(next) && !Eligible(other) && start != next
    requires next in Discovered(site, urlPath, start)
    requires forall u, l :: l in Discovered(site, urlPath, u) ==> l == next || l == other
    requires |fetched| > 0 && fetched[0] == start
    requires NoDuplicates(fetched)
    requires forall u :: u in visited <==> u in fetched
    requires forall i :: 1 <= i < |fetched| ==>
      Eligible(fetched[i]) && FoundBefore(site, urlPath, fetched, i, fetched[i])
    requires forall u, l :: u in visited && l in Discovered(site, urlPath, u) && Eligible(l) ==> l in visited
    ensures visited == {start, next}
    ensures fetched == [start, next]
  {
    assert next in visited;
    forall i | 1 <= i < |fetched| ensures fetched[i] == next {
      assert FoundBefore(site, urlPath, fetched, i, fetched[i]);
    }
    var k :| 0 <= k < |fetched| && fetched[k] == next;
    assert k != 0;
    assert |fetched| >= 2;
    assert fetched[1] == next;
    // the loaded URLs are distinct and all among `start` and `next`
    assert (set x | x in fetched) == {start, next} by {
      forall x | x in fetched ensures x == start || x == next {
        var i :| 0 <= i < |fetched| && fetched[i] == x;
      }
    }
    DistinctElements(fetched);
    assert fetched == [fetched[0], fetched[1]];
  }

  /** Crawling from the start page loads the start and the in-scope page,
      never the out-of-scope one, and writes both documents. */
  method TwoPageCrawl() returns (visited: set<Url>, written: seq<Document>)
    ensures visited == {StartPage, NextPage}
    ensures |written| == 2
  {
    var fetched;
    var site := TwoPageSite(StartPage, NextPage, OtherPage);
    visited, fetched, written := Crawl(site, WholeUrl, StartPage);
    TwoPageEligible();
    TwoPageLinks(StartPage, NextPage, OtherPage, WholeUrl);
    OnlyTwoLoaded(site, WholeUrl, StartPage, NextPage, OtherPage, visited, fetched);
    assert [StartPage, NextPage][..1] == [StartPage];
    assert [StartPage][..0] == [];
  }
}
