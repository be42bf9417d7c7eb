# genai_regwatch — a verified model of the document pipeline and the scrapers' rules

genai_regwatch watches Indian financial regulators (the Reserve Bank of India and the
National Housing Bank). Its scrapers list each regulator's notifications and download the
linked files. Each new file is stored as a `NEW` row of `reg_updates`, keyed by its content
hash. Its processor then reads every `NEW` document and extracts the text. It removes the
RBI letter-head boilerplate and cuts the text into 400-word chunks. It asks a local
completion service (Ollama) for action points and a summary of each chunk, repairs the JSON
the service returns, and writes the summary and the actions to the database. Finally it
marks the document `PROCESSED`.

This project models that core in Dafny and proves properties of the model:

- `Text`: the Python `str` operations the code relies on (`split`, `join`, `strip`,
  `lower`, `startswith`, `endswith`, `in`).
- `Json`: JSON values and the codec (`json.loads`/`json.dumps`), supplied from outside.
  The codec must obey `Lawful`. What `loads` returns is `Canonical`: an object's names are
  distinct, and a number is the literal it reads back as. A canonical value dumps to text
  that parses back to it, and a dumped list starts with `[` and ends with `]`.
- `Dispatch`: `extract_text`, which chooses a parser by extension. The parsers are
  opaque functions.
- `Cleaner`: `clean_rbi_headers`. The seven `head.*?mid.*?\n` rules are modelled as literal
  heads and middles with lazy gaps, under IGNORECASE and DOTALL.
- `Chunker`: `chunk_text`.
- `JsonRepair`: `clean_json_string`.
- `Completion`: `call_ollama`. The service is an oracle that gives the outcome of every
  attempt: it raised, or it streamed these lines.
- `Prompts`: the four prompt templates, identified by the values filled into them.
- `Actions`: `extract_actions`.
- `Summary`: `summarize_doc`.
- `Store`: the three tables, plus a `Connection` class. Its writes stay pending, and are
  visible only to itself, until `Commit`.
- `Worker`: `process_single_doc` and `process_new_docs`. The thread pool is a sequential
  loop.
- `Scraper`: the title, link, URL and file-name rules of both scrapers. Also the
  insert-unless-the-hash-is-stored loop, run on one connection that commits once.

The seven boilerplate rules are applied in the source's order, and the cleaned text
depends on that order: a later rule can match across text that an earlier rule deleted. A
reply counts as failed when it is empty or merely contains `LLM_CALL_FAILED`
(`Completion.Failed`), so a genuine reply quoting the sentinel is discarded as well.

The loops of the source are methods whose loop invariants tie them to specification
functions. They are `CleanRbiHeaders`, `CallOllama`, `SummarizeChunks`, `CollectActions`,
`ProcessNewDocs`, `ProcessNewDocsAsWritten`, `ScrapeRbiWith` and `ScrapeNhb`. The properties are proved as lemmas
about those functions.

Several settings are never defined in `config.py`: `OLLAMA_URL`, `OLLAMA_MODEL`,
`MAX_WORKERS` and `NHB_NOTIFICATIONS_URL`. `processor.py` imports the first three at module
level (line 7), and `scraper.py` imports the last at module level (line 10). As written,
both modules therefore fail at import, and neither scraper nor the processor runs at all.
The model assumes the settings are defined and makes them parameters (`Completion.Config`,
and the NHB page passed to `ScrapeNhb`).

## Model

| member | source | states |
|---|---|---|
| Text.SplitBlank | genai_regwatch/processor.py:60 | `split()` yields no word exactly when the text is all whitespace |
| Text.SplitJoin | genai_regwatch/processor.py:60-61 | words joined with single spaces split back into the same words |
| Text.Strip | genai_regwatch/processor.py:56 | the stripped text is no longer than the input, and neither of its ends is whitespace |
| Text.StripPadded | genai_regwatch/processor.py:56 | `strip()` removes exactly the whitespace padding around a text whose ends are not whitespace |
| Text.LStripShape | genai_regwatch/processor.py:56 | `lstrip()` drops a leading run of whitespace and nothing else |
| Text.RStripShape | genai_regwatch/processor.py:56 | `rstrip()` drops a trailing run of whitespace and nothing else |
| Text.LastIndexOf | genai_regwatch/scraper.py:103 | the position found holds the character and no later one does; None exactly when the character is absent |
| Json.Get | genai_regwatch/processor.py:79-82 | `obj[key]` is defined exactly when `key in obj`, and is a value the object gives for that name |
| Json.Names | genai_regwatch/processor.py:185 | iterating a decoded object yields exactly its keys |
| Json.Elements | genai_regwatch/processor.py:185 | `list.extend` raises exactly on null, booleans and numbers, and takes an array's items in order |
| Dispatch.Extension | genai_regwatch/processor.py:20 | the key has no dot, ends the lowered name, and is either the whole lowered name or follows its last dot |
| Dispatch.ExtractText | genai_regwatch/processor.py:19-40 | each of the seven keys goes to its parser (docx paragraphs joined by newlines); any other key gives `""` |
| Dispatch.KnownKeys | genai_regwatch/processor.py:21-40 | exactly pdf, htm, html, xls, xlsx, csv and docx have a parser |
| Dispatch.DispatchByExtensionOnly | genai_regwatch/processor.py:20 | two file names with the same key are read identically |
| Dispatch.ExtensionOfDotted | genai_regwatch/processor.py:20 | the key of `stem.ext` is `ext` lowered, whatever dots the stem holds |
| Dispatch.DispatchIgnoresCase | genai_regwatch/processor.py:20 | upper- and lower-case names are read identically |
| Cleaner.Find | genai_regwatch/processor.py:45-55 | an occurrence found, ignoring case, lies inside the text |
| Cleaner.FindFirst | genai_regwatch/processor.py:45-55 | `Find` gives the leftmost case-insensitive occurrence, and None exactly when there is none |
| Cleaner.Lazy | genai_regwatch/processor.py:48-49 | the lazy gaps and middle parts end within the text |
| Cleaner.MatchAt | genai_regwatch/processor.py:45-53 | a match starts with the head, ignoring case, runs past it, and ends with a newline |
| Cleaner.Sub | genai_regwatch/processor.py:55 | `re.sub` with an empty replacement never lengthens the text |
| Cleaner.CleanRbiHeaders | genai_regwatch/processor.py:44-56 | the loop equals the seven rules applied in order, then a strip; the result is no longer than the input and has no whitespace at either end |
| Cleaner.SubEach | genai_regwatch/processor.py:54-55 | rewriting once per rule equals applying the rules in order, and never lengthens the text |
| Cleaner.SubAfterMatch | genai_regwatch/processor.py:55 | a match at the start of the text is deleted through its newline, and scanning resumes after it |
| Cleaner.HeaderLineDeleted | genai_regwatch/processor.py:46-55 | a one-line header, head through newline, is deleted, and what follows is cleaned on its own |
| Cleaner.HeaderLinesDeleted | genai_regwatch/processor.py:46-55 | consecutive header lines are all deleted; a trailing header with no newline after it stays |
| Cleaner.NewlineFreeTextKept | genai_regwatch/processor.py:45-55 | no rule matches text without a newline, so such text is kept whatever headers it holds |
| Cleaner.TextWithoutHeadKept | genai_regwatch/processor.py:45-55 | text in which a rule's head never occurs, ignoring case, is kept |
| Cleaner.HeaderSpanCrossesLines | genai_regwatch/processor.py:48-55 | under DOTALL, a rule with a middle part matches from its head across newlines to the first middle part, then through the next newline |
| Cleaner.SubSkipsPrefix | genai_regwatch/processor.py:55 | text in which no position starts the rule's head is copied through, and substitution continues after it |
| Cleaner.HeaderDeletedAnywhere | genai_regwatch/processor.py:45-55 | a header match is deleted wherever it occurs: `Sub(p + m + s) == p + Sub(s)` when `m` is a match and `p` holds no start of the head |
| Cleaner.SubAllKeeps | genai_regwatch/processor.py:54-55 | rules whose heads do not occur leave the text unchanged |
| Cleaner.CleanWithoutHeaders | genai_regwatch/processor.py:44-56 | text holding none of the seven heads is only stripped |
| Chunker.WindowsFlatten | genai_regwatch/processor.py:61 | the windows, concatenated in order, are the word list again |
| Chunker.WindowsSizes | genai_regwatch/processor.py:61 | there are ⌈n/m⌉ windows, each non-empty and at most `m` long, and all but the last exactly `m` |
| Chunker.WindowsMembers | genai_regwatch/processor.py:61 | every word of a window is one of the words |
| Chunker.ChunksOfWords | genai_regwatch/processor.py:61 | re-joined windows split back into their windows: count, sizes and order of words |
| Chunker.ChunkText | genai_regwatch/processor.py:59-61 | ⌈words/max⌉ chunks; each has 1..max words and all but the last exactly max; their words in order are `text.split()` |
| Chunker.BlankTextHasNoChunks | genai_regwatch/processor.py:59-61 | the chunk list is empty exactly when the text is empty or whitespace |
| JsonRepair.DropFenceMarkers | genai_regwatch/processor.py:195 | removing fence markers never lengthens the text |
| JsonRepair.MarkerAt | genai_regwatch/processor.py:195 | a marker is `` ```json `` (7) or `` ``` `` (3); text not starting with a backtick starts no marker |
| JsonRepair.DropFences | genai_regwatch/processor.py:195 | `replace("```", "")` never lengthens the text |
| JsonRepair.NoTicksUnchanged | genai_regwatch/processor.py:195 | text without backticks passes both fence removals unchanged |
| JsonRepair.SpanFromShape | genai_regwatch/processor.py:200 | the span found runs from the leftmost opener that has a closer of its kind after it, through the last such closer; None exactly when no opener is closed |
| JsonRepair.Closer | genai_regwatch/processor.py:200 | a closer found lies after the opener, inside the text |
| JsonRepair.CloserShape | genai_regwatch/processor.py:200 | the closer found is the last of the opener's kind; None exactly when the opener is not closed |
| JsonRepair.BracketedReplyRecovered | genai_regwatch/processor.py:199-205 | a reply that does not parse as a whole, holding one serialised list amid text with no brackets, braces or backticks, is repaired to that list |
| JsonRepair.RepairParses | genai_regwatch/processor.py:193-207 | whatever the reply, the repaired text parses: `clean_json_string` never fails |
| JsonRepair.FencedReplyUnwrapped | genai_regwatch/processor.py:194-198 | a reply in a `` ```json `` fence is read as the JSON inside the fence |
| JsonRepair.RepairOfDump | genai_regwatch/processor.py:196-198 | a value `loads` can return, serialised without backticks, is its own repair |
| JsonRepair.RepairIdempotent | genai_regwatch/processor.py:193-207 | repairing a repaired text that holds no backtick changes nothing |
| JsonRepair.UnbracketedGarbageIsEmpty | genai_regwatch/processor.py:199-207 | unparsable text without `{` or `[` repairs to `"[]"` |
| Completion.TrimSlashes | genai_regwatch/processor.py:65 | `rstrip("/")` leaves no trailing slash and removes only slashes |
| Completion.RequestFor | genai_regwatch/processor.py:65-66 | the request goes to `.../api/generate` with the configured model, the prompt and `max_tokens` |
| Completion.EndpointIgnoresTrailingSlash | genai_regwatch/processor.py:65 | a trailing slash on the configured URL does not change the endpoint |
| Completion.Field | genai_regwatch/processor.py:79-82 | a record with a `response` adds it if it is a string and raises otherwise; one without `response` but with `output` adds that if it is a string and raises otherwise; one with neither adds nothing; a scalar record raises |
| Completion.Outcome | genai_regwatch/processor.py:73-85 | an attempt raises (no outcome) when the request fails or a line raises; otherwise it gives the sentinel when nothing was accumulated, and else the stripped accumulation |
| Completion.AccumulateConcat | genai_regwatch/processor.py:74-84 | folding a stream split in two is folding each piece in order; an error in the first piece wins |
| Completion.RaisedPrefix | genai_regwatch/processor.py:74-78 | once a line raises (undecodable bytes), later lines cannot rescue the attempt |
| Completion.AccumulateInOrder | genai_regwatch/processor.py:73-84 | when no line raises, the reply is the in-order concatenation of what each line adds |
| Completion.NoiseSkipped | genai_regwatch/processor.py:74-84 | blank lines and lines that are not JSON add nothing |
| Completion.ResponseBeforeOutput | genai_regwatch/processor.py:79-82 | a record with both fields contributes its `response` |
| Completion.OutputWhenNoResponse | genai_regwatch/processor.py:79-82 | a record with `output` and no `response` contributes its `output` |
| Completion.SilentAccumulate | genai_regwatch/processor.py:73-84 | a stream whose lines all add nothing accumulates `""` |
| Completion.SilentAttemptNotRetried | genai_regwatch/processor.py:68-85 | an attempt that streams nothing usable returns the sentinel at once and is not retried |
| Completion.FirstReply | genai_regwatch/processor.py:68-90 | stops at the first outcome that is not a raise and returns it; every earlier one raised; if all raised, it returns the sentinel after all attempts |
| Completion.AskAttempts | genai_regwatch/processor.py:68-90 | at most `retries` attempts; every attempt but the last made raised; the last one's reply is returned; the sentinel only once all attempts raised |
| Completion.Outcomes | genai_regwatch/processor.py:68 | one outcome per allowed attempt |
| Completion.Replies | genai_regwatch/processor.py:112 | one reply per prompt, as each chunk loop makes (also line 180) |
| Completion.CallOllama | genai_regwatch/processor.py:64-90 | the retry loop returns what `Ask` specifies: the reply and the number of attempts made |
| Completion.ReadAttempt | genai_regwatch/processor.py:69-87 | the streaming loop of one attempt gives exactly `Outcome` |
| Actions.ExtractActions | genai_regwatch/processor.py:160-189 | one prompt per chunk of the cleaned text, in order; the result dumps the in-order collection of each reply's contribution |
| Actions.CollectActions | genai_regwatch/processor.py:165-187 | the loop sends the chunk prompts in order and concatenates each reply's contribution in chunk order |
| Actions.CollectedConcat | genai_regwatch/processor.py:183-187 | collecting over two runs of replies is collecting over each, in order |
| Actions.AllFailedGivesEmptyList | genai_regwatch/processor.py:180-189 | when every call failed (empty or sentinel), the result is `"[]"` |
| Actions.CollectedCanonical | genai_regwatch/processor.py:180-189 | every item of the list `extract_actions` builds is a value `loads` can return, so the list serialises to text that parses back to it |
| Actions.ContributionOfParsed | genai_regwatch/processor.py:181-187 | a reply that did not fail adds what `extend` takes from its repaired value |
| Actions.ParsedDump | genai_regwatch/processor.py:183-185 | a value `loads` can return, serialised without backticks, repairs to itself |
| Actions.ArrayReplyContributesItems | genai_regwatch/processor.py:183-185 | a reply that is a serialised array (of values `loads` can return) adds its items |
| Actions.FencedArrayReplyContributesItems | genai_regwatch/processor.py:183-185 | a fenced serialised array (fences dropped at line 195) adds its items |
| Actions.FencedDumpParsed | genai_regwatch/processor.py:193-198 | a value `loads` can return, serialised without backticks and fenced, repairs to itself |
| Actions.ObjectReplyContributesKeys | genai_regwatch/processor.py:185 | a reply that is a serialised object (distinct names) adds exactly its keys, as strings |
| Actions.ScalarReplySkipped | genai_regwatch/processor.py:185-187 | a reply repairing to a number, boolean or null adds nothing (`extend` raises and is skipped) |
| Summary.Partial | genai_regwatch/processor.py:113-114 | a chunk's summary is its reply when that did not fail, else "No material content in this section." |
| Summary.Partials | genai_regwatch/processor.py:98-115 | one partial summary per reply |
| Summary.FinalPrompt | genai_regwatch/processor.py:119-153 | the compliance prompt exactly when `actions_json` is non-empty and repairs to a non-empty list, else the administrative one, over the title and combined summaries |
| Summary.Final | genai_regwatch/processor.py:156 | the final reply when that did not fail, else "No summary available." |
| Summary.SummarizeDoc | genai_regwatch/processor.py:93-156 | one call per chunk in order and then exactly one final call; the final prompt combines the partial summaries joined by newlines |
| Summary.SummarizeChunks | genai_regwatch/processor.py:98-115 | the loop sends the chunk prompts in order and keeps each reply or its fallback |
| Summary.ChooseFinalPrompt | genai_regwatch/processor.py:119-153 | the prompt chosen by the try/except block is `FinalPrompt` |
| Summary.FallbacksDoNotFail | genai_regwatch/processor.py:113-114 | neither fallback (nor the one at line 156) text counts as a failed reply |
| Summary.PartialsNeverFail | genai_regwatch/processor.py:113-115 | no partial summary is ever a failure marker |
| Summary.ActionsDecidePrompt | genai_regwatch/processor.py:122-126 | for a serialised list of values `loads` can return (what `extract_actions` returns, by `CollectedCanonical`) without backticks, the compliance prompt is chosen exactly when the list is non-empty |
| Summary.NoActionsText | genai_regwatch/processor.py:122 | empty `actions_json` always leads to the administrative prompt |
| Store.Apply | genai_regwatch/processor.py:211-237 | each insert appends its row to its own table (`reg_updates`, `reg_summaries` or `reg_actions`) and changes nothing else; the status update changes only its own row, to `PROCESSED` |
| Store.ApplyAllConcat | genai_regwatch/processor.py:233-238 | writes applied in two batches equal the writes applied in one |
| Store.ResultWritesTouchOwnRow | genai_regwatch/processor.py:233-237 | a processed document's writes append exactly its summary row and its actions row, and change only its own row of `reg_updates`, to `PROCESSED` |
| Store.NewIds | genai_regwatch/processor.py:250 | exactly the ids of the `NEW` rows, ascending |
| Store.Connection.Execute | genai_regwatch/processor.py:211-218 | a write joins the pending ones and is visible on this connection only |
| Store.Connection.Commit | genai_regwatch/processor.py:238 | all pending writes become the committed state at once |
| Worker.SendEmailAlert | genai_regwatch/alerts.py:6-25 | the alert raises exactly when called with a number of arguments other than its three |
| Worker.SaveSummaryAndActions | genai_regwatch/processor.py:210-218 | the summary row, then the actions row, are added to the open transaction |
| Worker.AnalyseDoc | genai_regwatch/processor.py:228-229 | actions are computed first, and the summary is computed with them |
| Worker.ProcessSingleDocAsWritten | genai_regwatch/processor.py:221-243 | as written, the five-argument alert raises before the commit: the document never completes and nothing is committed |
| Worker.StoreResults | genai_regwatch/processor.py:231-238 | the two result rows and the status update are committed together, once |
| Worker.ProcessSingleDoc | genai_regwatch/processor.py:221-243 | with the alert called as declared: done exactly when the file is read and the database answers for this document; then everything is committed, otherwise nothing |
| Worker.Selected | genai_regwatch/processor.py:250-251 | the selected documents are exactly the `NEW` rows; the query has no `ORDER BY`, and the model takes them in id order |
| Worker.ProcessNewDocs | genai_regwatch/processor.py:247-268 | with the alert fixed: every `NEW` row is attempted exactly once, in turn, and the tables are the documents' results applied in turn; when the run's own connection fails, the run raises and nothing is attempted or changed |
| Worker.ProcessNewDocsAsWritten | genai_regwatch/processor.py:247-268 | as written: every `NEW` row is attempted, or the run raises when its own connection fails, and in both cases no table changes |
| Worker.AfterDocRows | genai_regwatch/processor.py:233-243 | processing one document changes at most its own row, to `PROCESSED` |
| Worker.RunOutcome | genai_regwatch/processor.py:247-268 | with the alert fixed: after a run, a row is `PROCESSED` exactly when a document with its id completed; other rows keep their status |
| Worker.AsWrittenAlertRaises | genai_regwatch/processor.py:235 | the five-argument call raises; the declared three-argument call does not |
| Scraper.KbLabelDropped | genai_regwatch/scraper.py:93-97 | a title of words followed by "<digits> kb" comes back as the words |
| Scraper.OnlyLabelDropped | genai_regwatch/scraper.py:94-101 | a title is changed only when its last two words are digits and "kb", and the result is its other words |
| Scraper.Basename | genai_regwatch/scraper.py:103 | the base name is a slash-free suffix that follows the last slash; also used for the NHB title at line 206 |
| Scraper.RbiTitle | genai_regwatch/scraper.py:93-103 | the corrected RBI title is never empty, and is the cleaned title unless that is blank |
| Scraper.RbiTitleFix | genai_regwatch/scraper.py:102-103 | as written, the title raises exactly for a blank title on an anchor without `href`, and otherwise equals the corrected title |
| Scraper.Before | genai_regwatch/scraper.py:206 | `split(sep)[0]` is the prefix before the first occurrence of `sep` |
| Scraper.NhbTitleOfBlock | genai_regwatch/scraper.py:205-206 | a block "<title> Download ..." is titled by its title, for any stripped title that holds no "Download" of its own |
| Scraper.NhbTitleNotEmpty | genai_regwatch/scraper.py:201-206 | a block the filter keeps always gets a non-empty title |
| Scraper.RbiUrl | genai_regwatch/scraper.py:118 | a `/`-prefixed `href` gets the RBI host in front; any other is unchanged |
| Scraper.NhbUrl | genai_regwatch/scraper.py:193-199 | the NHB URL always starts with `http` and ends with the `href`; an `http` `href` is unchanged |
| Scraper.UrlsIdempotent | genai_regwatch/scraper.py:194-199 | building a URL from a built URL gives it back (RBI rule at line 118 too) |
| Scraper.Ext | genai_regwatch/scraper.py:128 | `splitext` gives empty, or a single-dot suffix of the last path component; the same call on the NHB URL at line 218 |
| Scraper.StoredName | genai_regwatch/scraper.py:128-129 | the stored file name starts with the content hash; likewise for NHB at lines 218-219 |
| Scraper.StoredNameKeepsExtension | genai_regwatch/scraper.py:128-129 | a path ending in one extension is stored as hash + that extension, lowered; likewise for NHB at lines 218-219 |
| Scraper.NoDotStoredAsPdf | genai_regwatch/scraper.py:128-129 | a path without a dot is stored as hash + `.pdf`; likewise for NHB at lines 218-219 |
| Scraper.LocalPath | genai_regwatch/utils.py:11 | the local path ends with the file name |
| Scraper.LocalPathBasename | genai_regwatch/utils.py:11 | the base name of the local path is the stored file name |
| Scraper.RowFor | genai_regwatch/scraper.py:21-32 | an inserted row has status `NEW`, a date (not a datetime), and the given hash, URL, title and regulator |
| Scraper.SaveMetadataForRegulator | genai_regwatch/scraper.py:21-32 | the row is added to the connection's pending writes and is visible on that connection |
| Scraper.SaveIfNew | genai_regwatch/scraper.py:122-132 | saved exactly when forced or the hash is not yet visible on this run's connection; the NHB loop body at lines 212-222 is the same |
| Scraper.KeepAppends | genai_regwatch/scraper.py:124-132 | one file appends at most one row, the row for that file, and touches nothing else |
| Scraper.KeepAllAppends | genai_regwatch/scraper.py:124-132 | a run only appends rows, all `NEW` and dated by day; likewise in the NHB loop, lines 214-222 |
| Scraper.KeepAllDistinct | genai_regwatch/scraper.py:124-126 | without `force`, a table with distinct hashes keeps distinct hashes, including files repeated within one run; likewise in the NHB loop, lines 214-216 |
| Scraper.KeepAllFresh | genai_regwatch/scraper.py:124-126 | without `force`, every row a run appends has a hash no earlier row has, whatever the table held before; likewise in the NHB loop, lines 214-216 |
| Scraper.KeepAllCovers | genai_regwatch/scraper.py:122-132 | after a run, every fetched file's hash is stored |
| Scraper.KeepAllKnown | genai_regwatch/scraper.py:124-126 | without `force`, files whose hashes are all stored change nothing |
| Scraper.RescrapeAddsNothing | genai_regwatch/scraper.py:124-126 | scraping the same files again without `force` stores nothing new; likewise for NHB, lines 214-216 |
| Scraper.ForcedKeepsAll | genai_regwatch/scraper.py:124 | with `force`, every fetched file is stored; likewise for NHB, line 214 |
| Scraper.RaisingRows | genai_regwatch/scraper.py:83-103 | as written, a row raises exactly when it has two cells and an anchor without `href`, and its cleaned title is blank; with the fix, no row raises |
| Scraper.RbiHref | genai_regwatch/scraper.py:83-116 | a row is downloaded exactly when it has two cells and an anchor whose `href` is present and accepted |
| Scraper.RbiRowStep | genai_regwatch/scraper.py:82-136 | one pass raises exactly when its title raises, and otherwise stores the row's file as the dedup rule says |
| Scraper.ScrapeRbiWith | genai_regwatch/scraper.py:80-138 | the accepted files are stored in row order, deduplicated unless forced, and committed once; a raising title stores nothing |
| Scraper.ScrapeRbiAsWritten | genai_regwatch/scraper.py:72-141 | as written: one row with a blank title and an anchor without `href` makes the whole run store nothing |
| Scraper.ScrapeRbi | genai_regwatch/scraper.py:72-141 | with the title fallback fixed, every run commits the deduplicated accepted files |
| Scraper.FixKeepsOtherRuns | genai_regwatch/scraper.py:102-103 | where the written rule does not raise, both rules store the same files |
| Scraper.NhbLink | genai_regwatch/scraper.py:185-202 | a kept block's URL starts with `http` and ends, in lower case, with an allowed extension |
| Scraper.NhbBlockStep | genai_regwatch/scraper.py:183-227 | one block stores its file as the dedup rule says and reports whether it added a row |
| Scraper.NhbCandidateShape | genai_regwatch/scraper.py:185-206 | every stored NHB file has an `http` URL with an allowed extension and a non-empty title |
| Scraper.ScrapeNhb | genai_regwatch/scraper.py:147-232 | nothing changes when the page does not load; otherwise the kept files are stored in page order and committed once; `found` counts the rows inserted |

## Left out

- Network and browser I/O are not modelled. The model sees them only through their outcomes:
  `requests`, Playwright, BeautifulSoup's selection of table rows and blocks, and the
  streaming transport of `call_ollama`. The service, the fetched pages and the downloaded
  bytes are parameters.
- PyMuPDF, BeautifulSoup's `get_text`, pandas and python-docx are opaque functions
  (`Dispatch.Parsers`).
- JSON text (RFC 8259) is not implemented. `json.loads` and `json.dumps` are a codec
  parameter, constrained only by `Json.Lawful`.
- Completion.Record: every line the codec rejects is skipped. The source catches only
  `JSONDecodeError` (processor.py:83). A `RecursionError` on a deeply nested line, or the
  `ValueError` for an integer of more than 4300 digits, would end the attempt and cause a
  retry; the model does not separate these failures.
- The regular-expression engine is not modelled. Each pattern of `clean_rbi_headers` is its
  literal pieces with lazy gaps. `clean_json_string`'s patterns are written out as
  functions (`DropFenceMarkers`, `SpanFrom`).
- Case-insensitive matching, `lower()` and `isdigit()` are modelled for ASCII only. Python
  folds other scripts too. This does not matter for the Devanagari heads, which have no
  case.
- `compute_hash` (SHA-256) is the opaque `Web.hashOf`. File names derived from it are not
  checked for collisions.
- `extract_date_from_text_or_url`, dateutil and `strptime` are parameters of `Web`. So are
  `datetime.utcnow()` and today's date.
- The `ThreadPoolExecutor` is a sequential loop over the selected rows. Interleavings of
  workers are not modelled; each worker writes only its own rows.
- Prompt wording is not modelled. A prompt is its template and the values filled into it
  (`Prompts.Prompt`).
- Worker.SendEmailAlert: models only the arity check. SendGrid and the HTML of the alert
  are left out. Sending is guarded by its own handler (alerts.py:20-25), but building the
  `Mail` message (alerts.py:8-19) is not, and a failure there is not modelled.
- `save_file_locally` writing the file, and a failure of that write, are not modelled. Nor
  is a failure of `check_if_exists`.
- In the model the scrapers' database connections always open. A failed `db_connect` in a
  scraper is not modelled.
- The log output (`print`) is not modelled.
- `db.save_metadata`, `main.py`, `app.py` and `test_email.py` are not part of this model.
  They are unused by the core, sequencing only, a read-only UI, and an SMTP test.
- Chunker.ChunkText: requires `maxWords > 0`. With 0, `range(0, n, 0)` raises
  `ValueError`; both callers pass 400.
- JsonRepair.RepairIdempotent: holds only when the repaired text has no backtick.
  `clean_json_string` is not idempotent in general. A JSON string value holding a triple
  backtick is re-serialised with it, and a second repair deletes it.

## Findings

| source | as written | input that shows it | evidently intended | confidence | as-written member | corrected member |
|---|---|---|---|---|---|---|
| genai_regwatch/processor.py:235 | `send_email_alert(regulator, title, url, summary, actions)` passes five arguments; alerts.py:6 declares three. The `TypeError` is caught at line 242, so the `UPDATE` and `commit` at 237-238 never run | any document whose file reads and parses while the database is up | call the alert with `title, summary, actions`; the rows and the `PROCESSED` status are then committed | not executed | Worker.ProcessSingleDocAsWritten, Worker.ProcessNewDocsAsWritten, Worker.AsWrittenAlertRaises | Worker.ProcessSingleDoc, Worker.ProcessNewDocs, Worker.RunOutcome |
| genai_regwatch/scraper.py:102-103 | a blank title falls back to `os.path.basename(href)` before `href` is checked at line 113; for an anchor without `href`, this raises `TypeError` outside the `try`, and the whole scrape aborts before `conn.commit()` | a row with two cells whose second cell is `<a>` with no `href` and no text | fall back to "Untitled" when there is no `href`, and skip the row at line 113 | not executed | Scraper.ScrapeRbiAsWritten, Scraper.RbiTitleFix, Scraper.RaisingRows | Scraper.ScrapeRbi, Scraper.RbiTitle |
