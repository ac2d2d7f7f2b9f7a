# newsSummaryAssistant — a Dafny model

newsSummaryAssistant is a small command-line program. It does four things:

- It reads the home page of the 163.com news portal and picks up to ten "hot" article links (`crawler.py`).
- It downloads each article and extracts its title and body text (`crawler.py`).
- It has each article summarised by a local Ollama server that runs a DeepSeek-R1 model, and strips the model's `<think>…</think>` reasoning from the answer (`llm.py`).
- It writes a dated plain-text report that lists each article's numbered title, URL and summary (`main.py`).

This project models those three files in Dafny and proves properties of the model.

The model has five modules:

- `Wrappers` (`wrappers.dfy`) holds `Option`.
- `Text` (`text.dfy`) holds the Python string operations the program relies on:
  - `str.strip`, `lstrip` and `rstrip`, with Python's exact whitespace set;
  - `replace("\n", " ")`, `"\n".join`, `in` and `str(int)`;
  - the inverses the proofs read text back with: splitting into lines and parsing decimals.
- `Crawler` (`crawler.dfy`) models `crawler.py`:
  - the anchored, case-insensitive article-URL pattern;
  - `_normalize_url`;
  - the anchor loop of `fetch_home_hot_links`, as a method with its loop invariants, proved against the specification function `Selected`;
  - the title rule, container choice and paragraph loop of `fetch_news`, as methods proved against functions.
- `Llm` (`llm.dfy`) models `llm.py`:
  - the JSON request that `summarize_with_ollama_api_chat` posts;
  - the `data.get("message", {}).get("content", "")` chain, including the answers on which it raises;
  - `_clean_deepseek_output`: the left-to-right, non-greedy, DOTALL removal of `<think>…</think>` blocks, followed by `strip()`.
- `Pipeline` (`pipeline.dfy`) models `main.py`:
  - `_num_to_cn`;
  - `save_to_txt` as the rendering of the report text and its file name;
  - the per-article loop of `main`: title fallback, truncation, summary and collection of results;
  - the whole run.

The outside world comes in as parameters. The home page is given as its anchors, or `None` when downloading it raises. `fetchPage` stands for downloading and parsing an article page, `post` for the HTTP round trip to Ollama, and `today` for the date.

Some behaviours of the source that the model makes explicit:

- The URL pattern is anchored only at the start. Any text may follow the first `.html`, including a query string.
- Because the match is tested before `_normalize_url`, the stored URL can fail the pattern. An example is `https://163.com/dy/article/a?b.html`, which is stored as `https://163.com/dy/article/a`.
- With `limit` at 0 or below, up to one link is still returned: the limit test comes after the append.
- An anchor with empty text does not mark its URL as seen. A later anchor with the same URL and some text is kept.
- The `未找到标题` test on the title is a substring test, so a real title that contains the phrase is replaced too.
- Removing the `<think>` blocks is a single pass, and cleaning is not idempotent (`Llm.CleanNotIdempotent`).
- A failure while fetching the home page is not caught by `main`.

## Model

| member | source | states |
|---|---|---|
| Text.Strip | crawler.py:100 | Python's `str.strip()` over the exact `str.isspace` set. Its properties are stated in `Text.StripSpec` |
| Text.StripSpec | crawler.py:100 | `strip()` gives the empty string exactly when the input is all whitespace. Otherwise the result begins and ends with a non-space character. An input that already does so comes back unchanged, and no new characters appear |
| Text.LStripSpec | crawler.py:100 | `lstrip()` keeps a suffix of the input, everything it drops is whitespace, and the result does not start with whitespace |
| Text.RStripSpec | crawler.py:100 | `rstrip()` keeps a prefix of the input, everything it drops is whitespace, and the result does not end with whitespace |
| Text.ReplaceNewlines | main.py:38-39 | `replace("\n", " ")` turns every newline into a space, keeps the length and every other character, and leaves no newline |
| Text.SingleLine | main.py:38-39 | a title or URL as written in the report has no newline and no whitespace at either end |
| Text.SingleLineSpec | main.py:38-39 | the one-line form is a slice of the newline-replaced text, and only whitespace lies outside the slice |
| Text.SingleLineKeeps | main.py:38-39 | a title or URL already on one line, with no whitespace at either end, is written unchanged |
| Text.StripKeepsOccurrence | main.py:81-82 | `strip()` keeps every occurrence of a text that neither starts nor ends with whitespace, so `sub in s.strip()` holds whenever `sub in s` does |
| Text.Contains | main.py:82 | `sub in s` holds exactly when `sub` occurs at some index of `s` |
| Text.Join | crawler.py:71 | Python's `sep.join(parts)`: empty for no parts, the part itself for one part |
| Text.JoinAppend | crawler.py:71 | `"\n".join` of two non-empty lists is the two joins separated by one separator |
| Text.SplitLines | main.py:37-49 | Python's `split("\n")`, used to read the report back: at least one part, and no part holds a newline |
| Text.SplitJoin | main.py:37-49 | splitting a newline-joined list of newline-free lines at its newlines gives the list back |
| Text.JoinSplit | main.py:37-49 | joining the lines of a text with newlines gives the text back |
| Text.SplitLinesNonEmpty | main.py:37-49 | a non-empty text with no newline at either end and no two newlines in a row splits into non-empty lines |
| Text.ParseIntToDecimal | main.py:16 | `str(n)` reads back as `n` for every integer |
| Crawler.MatchesArticlePattern | crawler.py:94 | `re.match` with the start-anchored pattern, ASCII case folding and a `.` that stops at a newline. Its meaning is stated in `Crawler.HtmlBeforeNewlineMeans` and `Crawler.MatchIgnoresSuffix` |
| Crawler.HtmlBeforeNewlineMeans | crawler.py:94 | the `.*\.html` part of the pattern holds exactly when `.html` occurs with no newline before it |
| Crawler.MatchIgnoresSuffix | crawler.py:94 | an href that matches the pattern still matches with anything appended: the pattern has no end anchor |
| Crawler.QueryHtmlMatches | crawler.py:94 | an article URL whose only `.html` is in its query string matches |
| Crawler.ShortArticleNoMatch | crawler.py:94 | an article path with no `.html` does not match |
| Crawler.NormalizeUrl | crawler.py:78-81 | the normalised URL is the prefix of the URL before its first `?` or `#` |
| Crawler.NormalizeUnique | crawler.py:78-81 | that prefix is the only string with those three properties, so the contract determines the result |
| Crawler.NormalizeIdempotent | crawler.py:78-81 | normalising twice is the same as normalising once |
| Crawler.NormalizeAppend | crawler.py:78-81 | a prefix with no `?` or `#` is kept and the rest is normalised |
| Crawler.NormalizeDropsQuery | crawler.py:78-81 | everything from the first `?` on is dropped |
| Crawler.NormalizeKeepsArticlePrefix | crawler.py:107 | normalising a matching href keeps the scheme, the host and the `/dy/article/` path, and normalises only what follows |
| Crawler.NormalizedUrlMayNotMatch | crawler.py:104-107 | there is a URL that matches the pattern while its normalised form does not |
| Crawler.QueryHtmlNormalized | crawler.py:107 | that URL is normalised to the bare article path |
| Crawler.Candidate | crawler.py:100-113 | the link one anchor yields when its URL is new: none when the stripped href is empty or does not match, or when the text is empty. A link has non-empty text and a URL with no query or fragment |
| Crawler.SelectFrom | crawler.py:115-119 | at most `limit` links are kept (one when `limit` < 1), and at most one per anchor |
| Crawler.Selected | crawler.py:96-121 | the links `fetch_home_hot_links` returns for a home page's anchors. Its properties are stated in the `Crawler.SelectFrom*` and `Crawler.SelectedFromAnchors` rows |
| Crawler.SelectFromStep | crawler.py:99-119 | one more anchor changes nothing once the limit is reached. Otherwise it adds its link unless the URL is already kept |
| Crawler.SelectFromUrlsDistinct | crawler.py:107-116 | no two kept links share a normalised URL |
| Crawler.SelectFromInOrder | crawler.py:99-116 | the kept links are candidates taken at strictly increasing anchor positions |
| Crawler.SelectedFromAnchors | crawler.py:99-116 | each kept link comes from an anchor whose stripped href is non-empty and matches the pattern. Its URL is that href normalised and its text is non-empty. The anchor positions increase |
| Crawler.SelectFromGrows | crawler.py:116 | the selection from a prefix of the anchors is a prefix of the selection from all of them |
| Crawler.SelectFromStopsAtLimit | crawler.py:118-119 | once the limit is reached, later anchors change nothing |
| Crawler.SelectFromComplete | crawler.py:99-119 | every eligible anchor met before the limit is reached has its URL among the kept links |
| Crawler.EmptyTextDoesNotMarkSeen | crawler.py:108-116 | an anchor with empty text does not block a later anchor with the same URL |
| Crawler.ExamineAnchor | crawler.py:100-113 | one pass of the loop body yields the anchor's candidate link exactly when its URL is not yet seen |
| Crawler.SelectStep | crawler.py:99-116 | the loop's state after one more anchor is the selection from one more anchor, and `seen` is the set of kept URLs |
| Crawler.SelectionStopped | crawler.py:118-119 | breaking out at the limit returns the selection from all the anchors |
| Crawler.FetchHomeHotLinks | crawler.py:84-121 | the loop returns the selection from all the anchors. When it breaks early, the limit was reached at the last anchor examined and not before |
| Crawler.ResolveTitle | crawler.py:33-38 | the `<h1>` text when non-empty, else the `<title>` text when non-empty, else the placeholder. The result is never empty |
| Crawler.FirstMatch | crawler.py:49-53 | the position of the first selector that matches, with no earlier selector matching |
| Crawler.ContainerParagraphs | crawler.py:49-55 | the paragraphs of the first matching container, or of the whole document when none matches |
| Crawler.ChooseContainer | crawler.py:49-55 | the loop uses the first matching selector's paragraphs, or the whole document when none matches |
| Crawler.NoContainerUsesDocument | crawler.py:54-55 | with no matching container, all paragraphs of the document are used |
| Crawler.KeptParagraphs | crawler.py:62-69 | every kept paragraph has at least 5 characters, and no more are kept than there were |
| Crawler.KeptParagraphsAppend | crawler.py:62-69 | the paragraph filter works piece by piece: filtering a concatenation concatenates the filtered parts |
| Crawler.KeptParagraphsKeepsLong | crawler.py:62-69 | every paragraph of 5 or more characters is kept |
| Crawler.KeptParagraphsNoneLong | crawler.py:62-69 | with only short paragraphs, nothing is kept |
| Crawler.CollectLines | crawler.py:62-69 | the paragraph loop keeps exactly the filtered paragraphs, in order |
| Crawler.BodyText | crawler.py:71-73 | the body is the stripped newline-join of the kept lines, or the placeholder when that is empty. It is never empty |
| Crawler.TwoParagraphBody | crawler.py:71 | two kept paragraphs are joined by one newline |
| Crawler.ArticleOf | crawler.py:24-75 | the article record keeps the URL and has a non-empty title and body |
| Crawler.FetchNews | crawler.py:24-75 | `fetch_news` returns the record defined by the title rule, the container rule and the paragraph filter |
| Crawler.NoLongParagraphGivesPlaceholder | crawler.py:62-73 | a container with only short paragraphs gives the body placeholder |
| Crawler.StormWarningKept | crawler.py:62-69 | of paragraphs of 2, 10 and 20 characters, the last two are kept |
| Crawler.StormWarningPage | crawler.py:24-75 | a page with an `<h1>` and no container has that title, and a body made of its long paragraphs |
| Llm.Prompt | llm.py:24-31 | the prompt f-string: the fixed instructions, the article body, and the trailing indentation |
| Llm.Payload | llm.py:33-39 | the JSON body: the model, one user message holding the prompt, and `stream` false |
| Llm.BuildRequest | llm.py:22-41 | the POST to `<base_url>/api/chat` with that body and the timeout. The title is not an argument |
| Llm.PromptRoundTrip | llm.py:24-31 | the prompt holds the article body unchanged between the fixed head and tail |
| Llm.RequestShape | llm.py:22-39 | the request goes to `<base_url>/api/chat` with exactly the keys `model`, `messages` and `stream`. The model is the one given and streaming is off. There is exactly one message, with role `user`, whose prompt gives back the body |
| Llm.ResponseContent | llm.py:46 | `message.content` of the answer. A missing `message` or `content` gives the empty string. An answer or message that is not an object, or content that is not a string, raises |
| Llm.FindFromSpec | llm.py:10 | the non-greedy `.*?` ends at the first `</think>` after the opening tag, or there is none |
| Llm.RemoveThink | llm.py:10 | removing blocks never lengthens the text |
| Llm.CopiesPrefixWithoutOpen | llm.py:10 | text before the first `<think>` is copied unchanged |
| Llm.DropsLeadingBlock | llm.py:10 | a block at the start is removed up to and including the first `</think>` after it |
| Llm.LeftmostBlock | llm.py:10 | text with no `<think>` before a block keeps that text, removes the block and goes on after it |
| Llm.BlockDropped | llm.py:10 | a block whose body has no `</think>` is removed whole |
| Llm.UnclosedOpenKept | llm.py:10 | text with no `</think>` is unchanged, even when it contains `<think>` |
| Llm.NoCloseUnchanged | llm.py:10 | text without `</think>` is unchanged |
| Llm.NoOpenUnchanged | llm.py:10 | text without `<think>` is unchanged |
| Llm.Clean | llm.py:5-11 | `_clean_deepseek_output`: the think blocks removed, then `strip()` |
| Llm.CleanWithoutOpen | llm.py:10-11 | without `<think>`, cleaning is just `strip()` |
| Llm.CleanIsStripped | llm.py:11 | the cleaned answer has no whitespace at either end |
| Llm.ReasoningThenPoints | llm.py:5-11 | a reasoning block followed by the summary points cleans to exactly the points |
| Llm.InnerBlockRemoved | llm.py:10 | inside `<thi<think></think>nk>x</think>`, only the inner block is removed and a new block is formed |
| Llm.CleanNotIdempotent | llm.py:5-11 | cleaning that text leaves `<think>x</think>`, which a second cleaning would remove: one pass is not a fixed point |
| Llm.Summarize | llm.py:14-47 | `summarize_with_ollama_api_chat`: `None` where the round trip or the `get` chain raises, else the cleaned content. Its properties are stated in `Llm.SummarizeOutcome` and `Llm.SummaryIgnoresTitle` |
| Llm.SummaryIgnoresTitle | llm.py:14-31 | the title argument has no influence on the summary |
| Llm.SummarizeOutcome | llm.py:14-47 | the call raises exactly when the round trip fails or the answer's shape makes the `get` chain raise. An empty answer object gives the empty summary. A summary has no whitespace at either end |
| Pipeline.NumToCn | main.py:10-16 | `_num_to_cn`: the Chinese numeral for 1 to 10, `str(n)` otherwise. Its properties are stated in `Pipeline.NumToCnSpec` and `Pipeline.NumToCnRoundTrip` |
| Pipeline.NumToCnSpec | main.py:10-16 | an index is written on one line. It is a single non-digit character exactly for 1 to 10 |
| Pipeline.NumToCnRoundTrip | main.py:10-16 | every written index reads back as itself |
| Pipeline.Entry | main.py:38-46 | the text written for entry `k`: numbered one-line title, one-line URL, heading and stripped summary, each ended by a newline |
| Pipeline.EntriesFromSnoc | main.py:37-46 | a further item adds its entry, numbered after the others |
| Pipeline.ReportText | main.py:37-49 | no items give an empty report |
| Pipeline.RenderReport | main.py:36-49 | the write loop produces the report text: the entries in order, separated by blank lines |
| Pipeline.ReportStep | main.py:37-49 | each pass of the write loop appends one entry, after a blank line except for the first |
| Pipeline.ReportAppend | main.py:47-49 | adding an item to a non-empty report adds a blank line and its entry |
| Pipeline.EntryAsLines | main.py:41-46 | an entry is its numbered title, URL and heading lines, then the summary's lines, each ended by a newline |
| Pipeline.LinesHaveNoNewline | main.py:38-40 | no line of the report holds a newline: titles and URLs are put on one line, and summaries are split into their lines |
| Pipeline.ReportLines | main.py:37-49 | a non-empty report splits, for each item in order, into the numbered title, URL, heading and summary lines, followed by an empty line |
| Pipeline.ReadSummary | main.py:46-49 | reading an entry's summary stops at the first empty line: the lines before it have no empty line, and it is found exactly when there is one |
| Pipeline.EntryRead | main.py:38-49 | one entry followed by further lines reads back as the item as written, then what those lines read as, unless its trimmed summary holds an empty line |
| Pipeline.ReadEntriesFrom | main.py:37-49 | reading the lines of the entries back gives the items as written, unless a trimmed summary holds an empty line |
| Pipeline.ReportRoundTrip | main.py:37-49 | unless a trimmed summary holds an empty line, the report reads back as the items as written: titles and URLs on one line, summaries stripped and possibly several lines long |
| Pipeline.BlankLineAmbiguous | main.py:37-49 | a summary with an empty line followed by a second entry's text gives the same report as two items, so that case cannot be read back |
| Pipeline.FileName | main.py:33 | the report file name: year, month and day in plain decimal with their characters, then the fixed suffix. Its properties are stated in `Pipeline.FileNameRoundTrip` and `Pipeline.FileNameInjective` |
| Pipeline.FileNameRoundTrip | main.py:33 | the date reads back out of the report's file name |
| Pipeline.FileNameInjective | main.py:33 | two dates give the same file name exactly when they are equal |
| Pipeline.ChooseTitle | main.py:81-83 | the stripped article title, or the stripped anchor text when that title is empty or contains `未找到标题` |
| Pipeline.PlaceholderTitleReplaced | main.py:81-83 | the crawler's placeholder title is replaced by the anchor text |
| Pipeline.MarkerInTitleReplaced | main.py:81-83 | any title containing `未找到标题`, at any position and with anything around it, is replaced by the stripped anchor text |
| Pipeline.CleanTitleKept | main.py:81-83 | a stripped title without the marker is kept |
| Pipeline.Truncate | main.py:91-92 | text up to 8000 characters is kept. Longer text becomes its first 6000 characters, `\n...\n` and its last 1500 characters |
| Pipeline.TruncateIdempotent | main.py:91-92 | truncating twice is the same as truncating once |
| Pipeline.ProcessOne | main.py:70-115 | one pass of the loop body. The fetch, the title fallback, the strip and truncation of the body, and the summary call, with `None` where the fetch or the summary raises |
| Pipeline.ProcessedStep | main.py:69-115 | one more hot link adds its result when both its fetch and its summary succeed, and nothing otherwise |
| Pipeline.ProcessHotLinks | main.py:69-117 | the loop collects exactly the results of the specification `Processed` |
| Pipeline.SuccessesInOrder | main.py:74-115 | results are taken in order, and every link left out is one whose fetch or summary failed |
| Pipeline.ProcessOneKeepsUrl | main.py:70-115 | a result carries its hot link's URL |
| Pipeline.ProcessedInOrder | main.py:69-115 | the results match the hot links at strictly increasing positions, with the same URLs. Every other link failed |
| Pipeline.Run | main.py:53-124 | how `main` ends: the home page fetch raises, no hot links, nothing summarised, or the report written. Its properties are stated in `Pipeline.RunReport` |
| Pipeline.RunMain | main.py:53-124 | `main` ends as the specification `Run` says |
| Pipeline.RunReport | main.py:53-124 | a report is written exactly when some article was summarised. No hot links means an early return. A written report has the dated file name and the rendered results: at most 10, with distinct URLs |

## Left out

- Downloading (`fetch_html`, crawler.py:9-21) is not modelled: the User-Agent header, the timeout, `raise_for_status` and `apparent_encoding`. The home page comes in as `Option<seq<Anchor>>` and an article page as `fetchPage(url): Option<Page>`, where `None` stands for any exception.
- HTML parsing by BeautifulSoup/lxml is not modelled. The model takes as given what the parser returns: `find_all("a", href=True)` in document order, `get_text(strip=True)`, `select_one`, `find_all("p")`, and the removal of `script`, `style` and `noscript`.
- Crawler.MatchesArticlePattern: `re.I` is modelled as ASCII case folding. Python also matches the letter `s` against U+017F and the letter `i` against U+0130 and U+0131. Those hrefs are rejected here but accepted by the source.
- Crawler.NormalizeUrl: cuts the URL at its first `?` or `#`. It does not lower-case the scheme, and it does not remove tab, CR and LF characters, both of which `urlsplit` does. Only hrefs that already match the pattern are normalised, and for those the host is fixed, so the two agree whenever the scheme is lower-case and the href has none of those characters.
- The Ollama server and the language model are not modelled: `post` stands for the HTTP round trip and JSON decoding. JSON numbers are integers only, because floats play no part in the fields read.
- The `re` engine is not modelled. `Llm.RemoveThink` writes out what `re.sub` does for this one pattern.
- `print`, `time.sleep` and the hot-link listing in `main` (main.py:60-63) have no effect on the result and are left out.
- `datetime.now()` becomes the `today` parameter.
- Opening and writing the file is not modelled, and neither is the `out_dir` path or the returned path. The report is its file name and its text.
- Pipeline.ReportRoundTrip: does not cover a summary whose trimmed text holds an empty line. An empty line ends an entry, so such a report can equal that of two items (`Pipeline.BlankLineAmbiguous`), and no reader could tell them apart.
- The literal prompt, including its indentation, is a constant. Only its place around the article body is specified.
