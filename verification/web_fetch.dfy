/** Search-result assembly of webFetch.py: `save_to_markdown` and
    `fetch_and_save_articles`. The search engine, the HTTP fetch
    (`extract_content`) and the HTML-to-markdown conversion are
    collaborators passed in a `FetchEnv`. */
module WebFetch {
  import opened Wrappers
  import opened Strings

  datatype SearchResult = SearchResult(title: string, link: string, description: string)

  /** `search` is the engine's ordered answer to a query, or the text of the
      exception the engine raised (a network or HTTP failure); `extract` is the
      page's HTML, or `None` when the request raised; `toMarkdown` is
      `html2text` with links kept; `open` is the text of the exception that
      opening a file name for writing raises (a missing directory, a name
      too long), or `None` when the file opens. */
  datatype FetchEnv = FetchEnv(
    search: string -> Result<seq<SearchResult>, string>,
    extract: string -> Option<string>,
    toMarkdown: string -> string,
    open: string -> Option<string>)

  const SitePrefix: string := "site:thalesdocs.com "
  const NoResultsMessage: string := "No relevant web search results found."

  /** Only this many results are ever fetched. */
  const TopResults: nat := 2

  /** Python truthiness of `extract_content`'s answer: neither `None` nor empty. */
  predicate Truthy(html: Option<string>) {
    html.Some? && html.value != ""
  }

  /** A result whose page fetch gives something to convert. */
  function Usable(env: FetchEnv): SearchResult -> bool {
    (r: SearchResult) => Truthy(env.extract(r.link))
  }

  /** `f"markdown/{query.replace(' ', '_')}.md"` */
  function OutputFileName(query: string): string {
    "markdown/" + ReplaceChar(query, ' ', '_') + ".md"
  }

  /** The entry for result number `i` (counted from 0) with converted page `md`. */
  function Entry(i: nat, r: SearchResult, md: string): string {
    "## " + NatToString(i + 1) + AfterNumber(r, md)
  }

  /** `. {title}`, the description in italics, the source link, then the
      converted page in a fenced block. */
  function AfterNumber(r: SearchResult, md: string): string {
    ". " + r.title + "\n*" + r.description + "*\n[Source](" + r.link + ")\n\n```\n" + md + "\n```\n\n"
  }

  /** The entry written for result `i`, whose fetch was usable. */
  function EntryFor(results: seq<SearchResult>, env: FetchEnv, i: nat): string
    requires i < |results| && Truthy(env.extract(results[i].link))
  {
    Entry(i, results[i], env.toMarkdown(env.extract(results[i].link).value))
  }

  /** The entries for the first `n` results, in result order; a result whose
      fetch gives nothing usable is skipped but keeps its number. */
  function EntriesUpTo(results: seq<SearchResult>, env: FetchEnv, n: nat): (es: seq<string>)
    requires n <= |results|
    ensures |es| <= n
    ensures forall e :: e in es <==>
      exists i :: 0 <= i < n && Truthy(env.extract(results[i].link)) && e == EntryFor(results, env, i)
    ensures var ps := Positions(results, Usable(env), n);
      |es| == |ps| && forall k :: 0 <= k < |es| ==> Usable(env)(results[ps[k]]) && es[k] == EntryFor(results, env, ps[k])
  {
    if n == 0 then []
    else
      var prior := EntriesUpTo(results, env, n - 1);
      var html := env.extract(results[n - 1].link);
      if Truthy(html) then prior + [Entry(n - 1, results[n - 1], env.toMarkdown(html.value))]
      else prior
  }

  /** What a completed `save_to_markdown` did: the file it wrote, what it
      wrote, and the list it returns. */
  datatype Saved = Saved(fileName: string, fileContent: string, entries: seq<string>)

  /** `save_to_markdown(search_results, query)`. Opening the file comes
      before any page is fetched, so when it raises the exception is all
      there is. */
  function SaveToMarkdown(results: seq<SearchResult>, query: string, env: FetchEnv): (r: Result<Saved, string>)
    // the output file cannot be opened: its exception escapes
    ensures r.Failure? <==> env.open(OutputFileName(query)).Some?
    ensures r.Failure? ==> r.error == env.open(OutputFileName(query)).value
    // otherwise one entry per usable result among the first two, in result order
    ensures r.Success? ==> r.value.fileName == OutputFileName(query)
    ensures r.Success? ==> forall e :: e in r.value.entries <==>
      exists i :: 0 <= i < Min(TopResults, |results|) && Truthy(env.extract(results[i].link))
        && e == EntryFor(results, env, i)
    ensures r.Success? ==> var ps := Positions(results, Usable(env), Min(TopResults, |results|));
      |r.value.entries| == |ps| && forall k :: 0 <= k < |ps| ==>
        Usable(env)(results[ps[k]]) && r.value.entries[k] == EntryFor(results, env, ps[k])
    // and the file holds exactly the returned entries, in order
    ensures r.Success? ==> r.value.fileContent == Concat(r.value.entries)
  {
    var fileName := OutputFileName(query);
    match env.open(fileName)
    case Some(error) => Failure(error)
    case None =>
      var entries := EntriesUpTo(results, env, Min(TopResults, |results|));
      Success(Saved(fileName, Concat(entries), entries))
  }

  /** The shapes `fetch_and_save_articles` ends in: the entry list, the
      tuple `(message, [])`, or the exception the search engine or
      `save_to_markdown` raised. */
  datatype Returned = Entries(list: seq<string>) | NoResults(message: string, empty: seq<string>) | Raised(error: string)

  /** One call: the query handed to the search engine, the value returned,
      and, when a file was written, what was saved. */
  datatype FetchOutcome = FetchOutcome(searched: string, value: Returned, saved: Option<Saved>)

  /** `fetch_and_save_articles(query)`. */
  function FetchAndSave(query: string, env: FetchEnv): (r: FetchOutcome)
    ensures r.searched == SitePrefix + query
    // the engine raises: its exception propagates, and nothing is fetched or written
    ensures env.search(r.searched).Failure? ==>
      r.value == Raised(env.search(r.searched).error) && r.saved.None?
    // no results: the sentinel tuple, and nothing is fetched or written
    ensures env.search(r.searched) == Success([]) <==> r.value.NoResults?
    ensures r.value.NoResults? ==>
      r.value.message == NoResultsMessage && r.value.empty == [] && r.saved.None?
    // results, but the output file does not open: that exception propagates
    ensures r.value.Raised? <==>
      (env.search(r.searched).Failure? ||
       (env.search(r.searched).Success? && env.search(r.searched).value != [] && env.open(OutputFileName(query)).Some?))
    ensures env.search(r.searched).Success? && env.open(OutputFileName(query)).Some? && r.value.Raised? ==>
      r.value.error == env.open(OutputFileName(query)).value && r.saved.None?
    // otherwise the saved entries are returned as they were written
    ensures r.value.Entries? ==>
      env.search(r.searched).Success?
      && SaveToMarkdown(env.search(r.searched).value, query, env).Success?
      && r.saved == Some(SaveToMarkdown(env.search(r.searched).value, query, env).value)
      && r.value.list == r.saved.value.entries
  {
    match env.search(SitePrefix + query)
    case Failure(error) => FetchOutcome(SitePrefix + query, Raised(error), None)
    case Success(results) =>
      if results != [] then
        match SaveToMarkdown(results, query, env)
        case Failure(error) => FetchOutcome(SitePrefix + query, Raised(error), None)
        case Success(saved) => FetchOutcome(SitePrefix + query, Entries(saved.entries), Some(saved))
      else
        FetchOutcome(SitePrefix + query, NoResults(NoResultsMessage, []), None)
  }

  /** What a front-end receives when the search finds results and the file
      opens: the entries of the first two results whose fetch gave
      something, numbered by result position and in result order. */
  lemma FetchedEntries(query: string, env: FetchEnv)
    requires env.search(SitePrefix + query).Success? && env.search(SitePrefix + query).value != []
    requires env.open(OutputFileName(query)).None?
    ensures FetchAndSave(query, env).value.Entries?
    ensures var results := env.search(SitePrefix + query).value;
      var ps := Positions(results, Usable(env), Min(TopResults, |results|));
      var list := FetchAndSave(query, env).value.list;
      |list| == |ps| && forall k :: 0 <= k < |ps| ==>
        Usable(env)(results[ps[k]]) && list[k] == EntryFor(results, env, ps[k])
  {
    var results := env.search(SitePrefix + query).value;
    assert SaveToMarkdown(results, query, env).Success?;
  }

  /** Entries are numbered by position among the results, not among the
      entries: when the first fetch fails, the only entry is number 2. */
  lemma NumberedByPosition(results: seq<SearchResult>, query: string, env: FetchEnv)
    requires |results| >= 2 && env.open(OutputFileName(query)).None?
    requires !Truthy(env.extract(results[0].link)) && Truthy(env.extract(results[1].link))
    ensures SaveToMarkdown(results, query, env).Success?
    ensures SaveToMarkdown(results, query, env).value.entries == [EntryFor(results, env, 1)]
    ensures IsPrefix("## 2. ", SaveToMarkdown(results, query, env).value.entries[0])
  {
    var e := EntryFor(results, env, 1);
    assert EntriesUpTo(results, env, 1) == [];
    assert NatToString(2) == "2";
    assert e == "## 2. " + e[6..] by {
      assert e == "## " + "2" + AfterNumber(results[1], env.toMarkdown(env.extract(results[1].link).value));
    }
  }

  /** An entry's number is the one it was built with: `str(i + 1)` is read
      back from between `## ` and the first `.`. */
  lemma EntryNumberDetermined(i: nat, r: SearchResult, md: string, j: nat, r': SearchResult, md': string)
    requires Entry(i, r, md) == Entry(j, r', md')
    ensures i == j
  {
    var d1 := NatToString(i + 1);
    var d2 := NatToString(j + 1);
    var x := AfterNumber(r, md);
    var y := AfterNumber(r', md');
    assert Entry(i, r, md) == "## " + (d1 + x);
    assert Entry(j, r', md') == "## " + (d2 + y);
    PrefixCancel("## ", d1 + x, d2 + y);
    DigitsBeforeSeparator(d1, x, d2, y);
    NatToStringInjective(i + 1, j + 1);
  }

  /** When the file opens and both top results fetch, both entries are
      kept, numbered 1 and 2, and the file is their concatenation. */
  lemma BothFetched(results: seq<SearchResult>, query: string, env: FetchEnv)
    requires |results| >= 2 && env.open(OutputFileName(query)).None?
    requires Truthy(env.extract(results[0].link)) && Truthy(env.extract(results[1].link))
    ensures SaveToMarkdown(results, query, env).Success?
    ensures SaveToMarkdown(results, query, env).value.entries ==
      [EntryFor(results, env, 0), EntryFor(results, env, 1)]
    ensures SaveToMarkdown(results, query, env).value.fileContent ==
      EntryFor(results, env, 0) + EntryFor(results, env, 1)
  {
    var e0 := EntryFor(results, env, 0);
    var e1 := EntryFor(results, env, 1);
    assert EntriesUpTo(results, env, 0) == [];
    assert EntriesUpTo(results, env, 1) == [e0];
    assert Concat([e0, e1]) == e0 + Concat([e1]);
    assert Concat([e1]) == e1 + Concat([]);
  }

  /** The output file name starts with `markdown/`, ends in `.md` and keeps
      the query's length; its base name has no spaces, each one having
      become an underscore, and holds a `/` exactly when the query does, so
      the file lies directly in `markdown/` only for a query without `/`. */
  lemma OutputFileNameShape(query: string)
    ensures IsPrefix("markdown/", OutputFileName(query)) && IsSuffix(".md", OutputFileName(query))
    ensures |OutputFileName(query)| == |query| + 12
    ensures forall k :: 9 <= k < |OutputFileName(query)| - 3 ==>
      OutputFileName(query)[k] != ' '
      && (query[k - 9] == ' ' ==> OutputFileName(query)[k] == '_')
      && (query[k - 9] != ' ' ==> OutputFileName(query)[k] == query[k - 9])
    ensures '/' in query <==> '/' in OutputFileName(query)[9..|OutputFileName(query)| - 3]
  {
    var base := ReplaceChar(query, ' ', '_');
    var f := OutputFileName(query);
    assert f == "markdown/" + base + ".md";
    assert f[..9] == "markdown/";
    assert f[|f| - 3..] == ".md";
    assert f[9..|f| - 3] == base;
    forall k | 9 <= k < |f| - 3
      ensures f[k] != ' '
      && (query[k - 9] == ' ' ==> f[k] == '_')
      && (query[k - 9] != ' ' ==> f[k] == query[k - 9])
    {
      assert f[k] == base[k - 9];
    }
    if '/' in query {
      var i :| 0 <= i < |query| && query[i] == '/';
      assert base[i] == '/';
    }
    if '/' in base {
      var i :| 0 <= i < |base| && base[i] == '/';
      assert query[i] == '/';
    }
  }
}
