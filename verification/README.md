# ThalesDocsBot: crawler, cleaner, web fallback

This project models the core of a documentation chatbot for the Thales CipherTrust Manager docs.
The core is four pieces:

- The breadth-first crawler `scrape_page` of `dataPrimer.py`. It starts from one seed URL, writes each page it loads to `markdown/<name>.md`, and follows the links that stay under `https://www.thalesdocs.com/ctp/cm/latest/` and do not end in an image extension.
- The cleaner `clean_markdown_file` of `dataPrimer.py`. It parses the text into a tree and deletes script/style/noscript tags, redirect links and iframe/object/embed elements. It then flattens paragraphs and list items to their text, writes the text of the tree back, and reports which lines changed, by position.
- The web fallback `save_to_markdown` and `fetch_and_save_articles` of `webFetch.py`. These search the docs site, fetch at most the first two results and write numbered markdown entries.
- The fallback path in the two chat front-ends (`MarkDownOllama_v3.py`, `ThalesDocsGPT.py`):
  - the gate that decides the index had no answer;
  - the truncation of the fetched context to 10000 or 3000 items;
  - the follow-up query built from the prompt and that context.

Modules, one per file:

- `Wrappers`: `Option` and `Result`.
- `Strings`: prefix, suffix and substring tests; `str.replace` and `lstrip`; decimal rendering of numbers.
- `Crawler`
- `HtmlTree`: the parsed forest and the deletion and flattening passes.
- `Cleaner`
- `WebFetch`
- `ChatFallback`

Parameters stand in for everything outside the program:

- The browser is a `Crawler.Site`. It has a map from URL to the rendered page and its links, plus the set of URL paths whose output file cannot be written.
- `urlparse(url).path` is a function parameter.
- The file system, the markdown/HTML parser and `str.splitlines` are the fields of `Cleaner.CleanEnv`.
- The search engine, the HTTP fetch, `html2text` and the opening of the output file for writing are the fields of `WebFetch.FetchEnv` (`search`, `extract`, `toMarkdown`, `open`).

## Model

| member | source | states |
|---|---|---|
| Crawler.Crawl | dataPrimer.py:22-61 | The seed is loaded first. No URL is loaded twice, and `visited` is exactly the set of loaded URLs. Every other loaded URL passed the scope/image filter and was a link read from a page loaded earlier. When the queue runs dry, every eligible link of every visited page has been visited. The order is breadth-first: of two loaded URLs after the seed, the one loaded first was read first, by the page it was read on and then by its position there. The files written are, in load order, those of the loaded pages whose write succeeded. |
| Crawler.DepthFirstOrderExcluded | dataPrimer.py:26-58 | When the seed links to `a` then `b` and `a` links to `c`, the depth-first load order `s, a, c, b` breaks the order clause of `Crawl`, because `b` was read before `c`. |
| Crawler.FirstRead | dataPrimer.py:26-58 | Where a URL was first read among the first `n` loaded pages; the page found is one of those `n`. |
| Crawler.FirstReadIsFirst | dataPrimer.py:26-58 | A URL has a first reading exactly when one of those pages lists it. That reading names the URL, and no reading of it on those pages comes earlier. |
| Crawler.Eligible | dataPrimer.py:56 | Definition: the link starts with the docs scope and ends in none of the seven image extensions. |
| Crawler.InScope | dataPrimer.py:56 | Definition: `re.match` of the scope pattern, which ends in `.*`, so the link only has to start with `https://www.thalesdocs.com/ctp/cm/latest/`. |
| Crawler.IsImage | dataPrimer.py:24 | Definition: `link.endswith(image_extensions)` of line 56, over the seven extensions of this tuple. |
| Crawler.Admits | dataPrimer.py:56-57 | Definition: the link is eligible and not yet visited. |
| Crawler.Fresh | dataPrimer.py:54-58 | A link is queued from a page exactly when it is in scope, is not an image and is not yet visited. |
| Crawler.FreshInOrder | dataPrimer.py:54-58 | The queued links are exactly the admitted links of the page in page order, with repeats kept, so the queue can hold a URL more than once. |
| Crawler.Discovered | dataPrimer.py:34-58 | Definition: the links read from a loaded page. There are none when the page failed to load, its file could not be written, or its anchors could not be read. |
| Crawler.Written | dataPrimer.py:34-49 | Definition: the document of a loaded page, unless the page failed to load or its file could not be written. |
| Crawler.Writes | dataPrimer.py:45-49 | Definition: the loaded URLs whose document gets written. |
| Crawler.Documents | dataPrimer.py:45-49 | Each written document comes from a loaded URL whose write succeeded, and every such URL has its document among them. |
| Crawler.DocumentsInOrder | dataPrimer.py:26-49 | The documents are, one for one and in load order, those of the loaded URLs whose write succeeded. |
| Crawler.DocumentsOnePerUrl | dataPrimer.py:28-49 | When no URL is loaded twice, no two documents carry the same URL. |
| Crawler.Stem | dataPrimer.py:40 | Definition: leading slashes stripped, every `/` turned into `_`, then one pass removing `.html`. |
| Crawler.FileName | dataPrimer.py:40 | Definition: `os.path.join('markdown', <stem> + '.md')`. |
| Crawler.PathJoin | dataPrimer.py:40 | Definition: POSIX `os.path.join` of two parts: an absolute second part replaces the first, and a `/` is inserted unless the first is empty or already ends in one. |
| Crawler.StemHasNoSlash | dataPrimer.py:40 | The base name holds no `/`. |
| Crawler.PathJoinRelative | dataPrimer.py:40 | `os.path.join` of a directory without a trailing slash and a relative name puts one `/` between them. |
| Crawler.FileNameShape | dataPrimer.py:40 | The output file is `markdown/<base>.md`, and the base name has no `/`. |
| Crawler.SlashUnderscoreCollision | dataPrimer.py:40 | Take any path with something other than slashes before a given place. A `/` or a `_` at that place gives the same output file (`/a/b` and `/a_b`, say), so the later page overwrites the earlier one. |
| Crawler.SeparatorReplaced | dataPrimer.py:40 | After such a prefix, stripping and replacing act on the prefix, the separator and the rest apart. |
| Crawler.HtmlPattern | dataPrimer.py:40 | The pattern `.html` holds no `/`, and its first character does not recur in it. |
| Crawler.HtmlSuffixCollision | dataPrimer.py:40 | Every path and the same path with `.html` appended map to the same output file. |
| Crawler.StemMayKeepHtml | dataPrimer.py:40 | Removing `.html` is a single left-to-right pass: the path `/a.ht.htmlml` gives the base name `a.html`. |
| Crawler.OneLeadingSlash | dataPrimer.py:40 | A path with one leading `/` and no other reaches the `.html` pass as the rest of the path. |
| Crawler.SinglePassExample | dataPrimer.py:40 | `a.ht.htmlml` loses its one `.html` and becomes `a.html`. |
| Crawler.Body | dataPrimer.py:46-49 | Definition: the URL header line, the content marker and the content, each followed by a blank line. |
| Crawler.BodyRoundTrip | dataPrimer.py:46-49 | A written document (URL header, content marker, content) parses back to its URL and content whenever the URL has no newline. |
| Crawler.OnlyTwoLoaded | dataPrimer.py:26-58 | Suppose a start page's links are one eligible page and one ineligible page, and no page links anywhere else. Then the crawl loads exactly the start page and then the eligible page. |
| Crawler.TwoPageCrawl | dataPrimer.py:22-61 | Take a start page linking to `<scope>next` and to an off-site page, where every write succeeds. The crawl visits exactly the start page and `<scope>next`, and writes two files. |
| HtmlTree.GetText | dataPrimer.py:135 | Definition: `get_text()`, the text leaves of a forest in document order; comments and doctype strings give nothing. |
| HtmlTree.NodeText | dataPrimer.py:135 | Definition: the text of one node: a text node's string, nothing for a comment or doctype, an element's children's text. |
| HtmlTree.Prune | dataPrimer.py:113-123 | Definition: one deletion pass removes every node it matches with its whole subtree and keeps everything else in place. |
| HtmlTree.Removes | dataPrimer.py:113-122 | Definition: which nodes each pass deletes: `script`, `style` and `noscript` elements; `a` elements that have an `href` containing `redirect`; `iframe`, `object` and `embed` elements. |
| HtmlTree.Pruned | dataPrimer.py:113-123 | Definition: the three deletion passes in program order: noise tags, then redirect links, then embedded objects. |
| HtmlTree.PruneFree | dataPrimer.py:113-123 | After a deletion pass, no node anywhere in the tree is one that the pass deletes. |
| HtmlTree.PruneKeepsFree | dataPrimer.py:113-123 | A deletion pass does not bring back nodes that an earlier pass removed. |
| HtmlTree.PruneUnchanged | dataPrimer.py:113-123 | A deletion pass leaves the tree unchanged exactly when the tree holds nothing it deletes. |
| HtmlTree.Flatten | dataPrimer.py:127 | Replacing an element's children by its text keeps its name, attributes and text. |
| HtmlTree.FlattenParagraphs | dataPrimer.py:126-127 | Definition: every paragraph, outermost first, keeps its element, name and attributes, and has its children replaced by one text node holding its text. |
| HtmlTree.FlattenItems | dataPrimer.py:130-132 | Definition: every `li` with a `ul` ancestor, outermost first, keeps its element, name and attributes, and has its children replaced by one text node holding its text. |
| HtmlTree.FlattenParagraphsText | dataPrimer.py:126-127 | Flattening paragraphs does not change the text of the tree. |
| HtmlTree.FlattenItemsText | dataPrimer.py:130-132 | Flattening list items does not change the text of the tree. |
| HtmlTree.FlattenParagraphsFlat | dataPrimer.py:126-127 | After the paragraph pass, every paragraph holds only text. |
| HtmlTree.FlattenItemsFlat | dataPrimer.py:130-132 | After the list pass, every `li` inside a `ul` holds only text. |
| HtmlTree.FlattenItemsKeepsParagraphs | dataPrimer.py:126-132 | The list pass keeps paragraphs flat. |
| HtmlTree.FlattenParagraphsKeepsFree | dataPrimer.py:113-127 | The paragraph pass brings back nothing a deletion pass removed. |
| HtmlTree.FlattenItemsKeepsFree | dataPrimer.py:113-132 | The list pass brings back nothing a deletion pass removed. |
| HtmlTree.Cleaned | dataPrimer.py:113-132 | Definition: the three deletion passes in program order, then the paragraph pass, then the list pass. |
| HtmlTree.CleanText | dataPrimer.py:135 | Definition: `soup.get_text()` of the cleaned tree. |
| HtmlTree.CleanedContract | dataPrimer.py:113-135 | The cleaned tree has no noise tags, no redirect links and no embedded objects. Its paragraphs and `ul` items are flat. Its text equals the text of the pruned tree. |
| HtmlTree.ExampleParagraphSurvives | dataPrimer.py:113-123 | No deletion pass touches a paragraph holding text and bold text. |
| HtmlTree.CleaningExample | dataPrimer.py:113-135 | A script followed by a paragraph with nested bold text cleans to the paragraph's text. |
| Cleaner.ChangedIndices | dataPrimer.py:140-141 | The indices where the two line lists differ, up to the shorter list's length: ascending, and each one really differs. |
| Cleaner.ChangedIndicesComplete | dataPrimer.py:140-141 | Every index below that length where the lists differ is listed. |
| Cleaner.LineEntry | dataPrimer.py:142 | Definition: `Line <i+1>: <line>`. |
| Cleaner.PositionalDiff | dataPrimer.py:140-142 | Definition: one entry per changed position of the zipped line lists, in position order. |
| Cleaner.DiffUpTo | dataPrimer.py:140-142 | Definition: the entries of the changed positions among the first `n` line pairs, in position order. |
| Cleaner.PositionalDiffContract | dataPrimer.py:138-142 | There is an entry `Line <i+1>: <cleaned line>` exactly when line i differs in the two lists, and no other entry. Lines past the shorter list are never reported. |
| Cleaner.LineEntryInjective | dataPrimer.py:142 | A diff entry determines its line number and its text. |
| Cleaner.ComputeDiff | dataPrimer.py:140-142 | The loop builds the positional diff. |
| Cleaner.CleanFile | dataPrimer.py:96-150 | The first component is always the argument. A write is attempted, to the argument, exactly when the read (if asked) and the parse succeed. It carries the cleaned text, and the diff is the positional diff of the split lines. A failure before the write gives no diff, and its error is the exception text of the failed read, or else of the failed parse. The error is otherwise the write's outcome. |
| Strings.IsPrefix | dataPrimer.py:56 | Definition: `startswith`: the text begins with the given sequence. |
| Strings.IsSuffix | dataPrimer.py:56 | Definition: `endswith`: the text ends with the given sequence. |
| Strings.Contains | dataPrimer.py:118 | Definition: Python's substring test `t in s`: `t` starts at some position of `s`. |
| Strings.NatToString | dataPrimer.py:142 | Definition: `str(n)` for a natural number, most significant digit first. |
| Strings.Concat | webFetch.py:81-82 | Definition: the texts joined in order, as the successive `f.write(entry)` calls leave the file. |
| Strings.Positions | dataPrimer.py:54-58 | The positions a filter keeps: all below the bound, in ascending order. |
| Strings.PositionsKept | dataPrimer.py:54-58 | Every listed position holds an element the filter accepts. |
| Strings.PositionsComplete | dataPrimer.py:54-58 | Every accepted position below the bound is listed. |
| Strings.PositionsPrefix | dataPrimer.py:54-58 | The kept positions below `n` depend only on the first `n` elements. |
| Strings.Min | webFetch.py:73 | The smaller of two naturals: neither is exceeded, and it is one of them. |
| Strings.DecimalRoundTrip | dataPrimer.py:142 | The decimal rendering used for line and entry numbers reads back to the number. |
| Strings.LStrip | dataPrimer.py:40 | `lstrip`: the result is a suffix of the text, does not start with the character, and only that character was dropped. |
| Strings.LStripAppend | dataPrimer.py:40 | `lstrip` of a path followed by more text strips only the leading part, unless that part is all slashes and the rest starts with one. |
| Strings.ReplaceChar | dataPrimer.py:40 | Character `replace` keeps the length and changes exactly the occurrences of the replaced character. |
| Strings.ReplaceCharAbsent | dataPrimer.py:40 | Replacing a character that does not occur changes nothing. |
| Strings.ReplaceCharAppend | dataPrimer.py:40 | Replacing `/` by `_` works piece by piece over a concatenation. |
| Strings.ReplaceAll | dataPrimer.py:40 | Definition: `str.replace` as one left-to-right pass over non-overlapping occurrences; replaced text is not scanned again. |
| Strings.NotPrefixAt | dataPrimer.py:40 | A text that differs from the pattern at some position does not start with it. |
| Strings.ReplaceAllShort | dataPrimer.py:40 | A text shorter than the pattern comes through unchanged. |
| Strings.ReplaceAllCopies | dataPrimer.py:40 | A leading part at none of whose positions the pattern starts is copied through unchanged. |
| Strings.ReplaceAllHit | dataPrimer.py:40 | A leading occurrence is replaced, and scanning resumes after it. |
| Strings.ReplaceAllAppendPattern | dataPrimer.py:40 | An occurrence of `.html` (or of any pattern whose first character does not recur in it) appended to a text is replaced on its own, and the rest of the result is unchanged. |
| Strings.ReplaceAllChars | dataPrimer.py:40 | A replace pass adds no characters other than the replacement's, and changes nothing when the pattern is absent. |
| WebFetch.OutputFileName | webFetch.py:69 | Definition: `markdown/` + the query with `_` for every space + `.md`. |
| WebFetch.OutputFileNameShape | webFetch.py:69 | The file name starts with `markdown/`, ends in `.md` and is the query's length plus 12. Its base name is the query with every space turned into `_`, so it has no spaces. It holds a `/` exactly when the query does, so the file sits directly in `markdown/` only for a query without `/`. |
| WebFetch.Entry | webFetch.py:80 | Definition: `## <i+1>. <title>`, the description in italics, the source link, then the converted page in a fenced block. |
| WebFetch.AfterNumber | webFetch.py:80 | Definition: the part of an entry after its number: `. <title>`, the italic description, the source link and the fenced page. |
| WebFetch.Truthy | webFetch.py:78 | Definition: `if html_content:`, which holds when the fetch gave neither `None` nor the empty text. |
| WebFetch.Usable | webFetch.py:77-78 | Definition: a result whose page fetch is truthy. |
| WebFetch.EntryFor | webFetch.py:77-80 | Definition: the entry of result `i`, built from the converted page its fetch gave. |
| WebFetch.EntriesUpTo | webFetch.py:73-82 | An entry exists for result i exactly when its fetch gave non-empty HTML. Entry i is numbered i+1 and holds the title, description, link and converted page. The entries are, one for one and in result order, those of the results whose fetch gave something. |
| WebFetch.SaveToMarkdown | webFetch.py:67-85 | The call fails, with the exception's text, exactly when the output file does not open. Otherwise the file is `markdown/<query with _ for spaces>.md`. The entries are, one for one and in result order, those of the first two results whose fetch gave non-empty HTML, and the file holds them concatenated. |
| WebFetch.FetchAndSave | webFetch.py:97-106 | The engine is asked `site:thalesdocs.com <query>`. When the engine raises, its exception comes out and nothing is saved. With no results, the function returns the message and an empty list, and saves nothing. With results but an output file that does not open, that exception comes out and nothing is saved. Otherwise it returns the saved entries. |
| WebFetch.FetchedEntries | webFetch.py:73-104 | When the search finds results and the file opens, the list returned is, one for one and in result order, the entries of the first two results whose fetch gave something. |
| WebFetch.NumberedByPosition | webFetch.py:73-82 | When the file opens, the first fetch fails and the second succeeds, the only entry is numbered 2. |
| WebFetch.BothFetched | webFetch.py:73-82 | When the file opens and both top fetches succeed, the entries are numbers 1 and 2 in order, and the file is the two of them joined. |
| WebFetch.EntryNumberDetermined | webFetch.py:80 | An entry determines the result position it was built for. |
| ChatFallback.PyOr | MarkDownOllama_v3.py:116-117 | Python `or` is truthy exactly when either operand is. |
| ChatFallback.Truthy | MarkDownOllama_v3.py:116-117 | Definition: Python truthiness of the two operand kinds of the gate: a string is truthy when non-empty, a boolean when true. |
| ChatFallback.MissGateAsWritten | MarkDownOllama_v3.py:116-117 | The gate as written is open for every response. |
| ChatFallback.MissGate | ThalesDocsGPT.py:91-92 | The gate as intended is open exactly when the response contains either miss phrase. |
| ChatFallback.MissGateEmptyResponse | ThalesDocsGPT.py:91-92 | The written gate opens on the empty response, which contains neither phrase. |
| ChatFallback.Truncate | MarkDownOllama_v3.py:123 | The result is a prefix of the data within the limit. It is the data itself when short enough, and exactly the limit long otherwise. |
| ChatFallback.OllamaContext | MarkDownOllama_v3.py:123 | The context passed to the Ollama front-end's second query is the prefix of the fetched data, cut to at most 10000 items. |
| ChatFallback.GptContext | ThalesDocsGPT.py:100 | The context passed to the GPT front-end's second query is the prefix of the fetched data, cut to at most 3000 items. |
| ChatFallback.FollowUpQuery | MarkDownOllama_v3.py:124-125 | The second query begins with the prompt and ` \n `, and ends with `Relevant Context: ` and the context. |
| ChatFallback.FollowUpRoundTrip | ThalesDocsGPT.py:101-102 | Given the prompt, the context can be read back from the second query. |
| ChatFallback.SecondQuery | MarkDownOllama_v3.py:116-125 | With the corrected gate, a turn sends a second query exactly when the response contains either miss phrase. That query starts with the prompt, and its context is the fetched text cut to the front-end's budget. |
| ChatFallback.FollowUpInjective | ThalesDocsGPT.py:101-102 | Two queries with prompts of equal length, or with the same context, are equal only when the prompts and the contexts are equal. |

## Left out

- The Playwright browser, the network and Google search are parameters (`Site`, `FetchEnv`): what they return is not modelled. An exception of the search engine is a `Failure` of `FetchEnv.search`.
- `urlparse(url).path` is a parameter of the crawl; URL parsing is not modelled.
- `scrape_all` (one browser page per seed, run concurrently with `asyncio.gather`) is not modelled. The crawls share nothing but the output directory.
- `clean_markdown_directory` (thread pool over `os.walk`, logging) is not modelled.
- Markdown-to-HTML conversion and BeautifulSoup parsing are the `parse` oracle. The cleaning passes work on the resulting tree of text, comment/doctype and element nodes.
- `str.splitlines` is the `splitLines` oracle of the cleaner.
- `html2text` and the page fetch of `webFetch.py` are the `toMarkdown` and `extract` oracles; HTTP errors are `None`.
- HtmlTree.Prune: bs4's later visit to an element already destroyed with its parent is not modelled; removing a subtree removes its descendants once. The difference shows in the redirect pass. `html.parser` keeps an `<a>` nested inside an `<a>`, and `find_all` has listed both. Take a redirect anchor with another anchor that has an `href` inside it, such as `<a href="…/redirect…">x <a href="https://y">z</a></a>`. Once the outer one is decomposed, reading `a_tag['href']` on the cleared inner tag raises `TypeError` (dataPrimer.py:118). `clean_markdown_file` then returns `(file_path, [], "'NoneType' object is not subscriptable")` and writes nothing, while the model goes on and Cleaner.CleanFile attempts the write. The noise-tag and embedded-object passes are unaffected, because decomposing a cleared tag again does nothing.
- `os.makedirs` is not modelled: the directory is assumed to be creatable. A failing open or write is given by `Site.unwritable`, a set of URL paths rather than of file names, fixed for the whole crawl. For failures that depend only on the file name, that is at least as general, because every set of failing file names corresponds to the set of paths that map to them. A failure that changes during the crawl cannot be expressed, such as a disk that fills up between two writes of the same file (the `#fragment` variants of one page share a path).
- Crawler.Documents: a page whose file opens but whose later write fails (dataPrimer.py:46-49) counts as not written, yet on disk the open has already emptied the file, and with colliding names that file may be an earlier page's. File contents on disk are not modelled.
- Crawler.Crawl: print statements and the exception message are not modelled. A page that fails to load or write ends its turn without effect other than being visited.
- WebFetch.SaveToMarkdown: only the `open` of the output file can fail; the writes after a successful open are assumed to succeed, and the `print` of the file name is not modelled.
- WebFetch.FetchAndSave: the `print` calls of lines 99-103 are not modelled.
- ChatFallback.Truncate: the context is modelled as a sequence. In both front-ends the value truncated is the triple returned by `clean_markdown_file`, whose length is 3, so the cut never happens there. That call also receives the entry list (or the `(message, [])` tuple) where a path or text is expected. This type confusion is not modelled.
- The `st.chat_message` / `st.write` UI, the session state, the chat engine and the index files (`hybridDocsGPT.py`, `ThalesDocs.py`, `MarkdownIndexCreator.py`) are not part of this model.
- No claim is made that cleaning twice equals cleaning once. The second parse is an oracle, so nothing can be said about it.
- Three behaviours of the code that a reader may not expect are kept as written:
  - `clean_markdown_file` with `is_file=False` still writes, to a file named by the text itself (Cleaner.CleanFile).
  - Output file names of the crawler are not unique (Crawler.SlashUnderscoreCollision, Crawler.HtmlSuffixCollision).
  - A page whose link extraction raises has already been written (Crawler.Discovered).

## Findings

| source | as written | input that shows it | evidently intended | confidence | as-written member | corrected member |
|---|---|---|---|---|---|---|
| MarkDownOllama_v3.py:116-117 and ThalesDocsGPT.py:91-92 | `"<documents phrase>" or "<index phrase>" in response`: `in` binds tighter than `or`, so the gate is the non-empty literal and always true | the response `""`, or any answer the index did give | the web fallback runs only when the response contains either phrase | high (not executed) | ChatFallback.MissGateAsWritten, ChatFallback.MissGateEmptyResponse | ChatFallback.MissGate, ChatFallback.SecondQuery |
