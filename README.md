# Citation-to-article resolver: a Dafny model

This project models the back end of a batch tool. The tool turns a pasted
references section into PubMed entries and downloaded article content.

- **The job worker** (`backend/job_processor.py`) picks up a stored job and
  splits its text into references. It runs each reference
  through PubMed search, content download and the entry table, writes one
  result and one progress update per reference, and ends with a final status.
  An in-flight set keeps at most one worker per job. One stop flag ends the
  item loop of every job.
- **The reference parser** (`backend/reference_parser.py`) splits the text on
  the first numbering pattern that yields more than one piece, else on blank
  lines. It cleans the fields the language model returns, or falls back to
  regular-expression extraction of title, first author and year.
- **The PubMed searcher** (`backend/pubmed_search.py`) builds an ordered list
  of up to five query strategies, with author-constrained copies first when
  an author is given. It tries them through the rate limiter and accepts the
  first fetched record whose title shares at least half of the query title's
  non-stop words.
- **The content downloader** (`backend/content_downloader.py`) finds the
  PubMed Central id through elink and assembles labelled plain text from the
  PMC XML. It fetches the PDF from one of two URLs and saves what it got.
- **The entry table** (`backend/database.py`) is the CSV file of processed
  articles: append, lookup by PMID, search, failed entries, statistics,
  update and delete.

Every remote service, the language model, the clock and other threads are
inputs of the model. Search, efetch, elink and HTTP are functions from the
request to a tagged reply that says which exception, if any, the call raised.
The language model is a function from a reference text to the decoded JSON
object, or nothing. The stop requests of other threads are an oracle
`interrupt(k)`: "the flag has been set by the time item `k` is checked".
Time is in whole milliseconds.

Files and modules:

- `common.dfy` (`Common`): the Python string builtins on ASCII, and the reply shapes.
- `xml_tree.dfy` (`XmlTree`): the element tree and its path queries.
- `rate_limit.dfy` (`RateLimit`): the clock and the 0.34 s request gate.
- `pubmed_search.dfy` (`PubMedSearch`).
- `reference_parser.dfy` (`ReferenceParser`).
- `database.dfy` (`Database`).
- `content_downloader.dfy` (`ContentDownloader`).
- `job_processor.dfy` (`JobProcessor`).

## Model

| member | source | states |
|---|---|---|
| Common.Strip | backend/pubmed_search.py:76 | `str.strip()`: the result is the input with only whitespace cut from both ends, has no whitespace at either end, and is empty exactly when the input is all whitespace |
| Common.StripIdempotent | backend/reference_parser.py:26-28 | stripping an already stripped reference changes nothing |
| Common.Lower | backend/pubmed_search.py:121 | `str.lower()`: same length, each character lower-cased |
| Common.Upper | backend/content_downloader.py:177 | `str.upper()`: same length, each character upper-cased |
| Common.Words | backend/pubmed_search.py:261-262 | `str.split()`: every token is non-empty and holds no whitespace; there are no tokens exactly when the text is all whitespace |
| Common.SubSpaces | backend/reference_parser.py:175 | `re.sub(r'\s+', sep, s)`: with a separator free of whitespace, no whitespace is left |
| Common.WordsJoin | backend/reference_parser.py:194-201 | the tokens of `str.split()` are the maximal non-whitespace runs in order: joined by any `sep` they give the stripped text with each whitespace run replaced by exactly one `sep` and every other character kept in order |
| Common.RemoveChar | backend/pubmed_search.py:76 | `replace(c, '')`: the character is gone, every other character of the input remains, nothing new appears, and the text is shorter by exactly the number of occurrences of the character |
| Common.Take | backend/pubmed_search.py:95 | `s[:n]`: the first `min(n, len)` elements |
| XmlTree.DeepPathSound | backend/pubmed_search.py:220-228 | every element a `.//A/B` query yields is a `B` child of some `A` below the queried element |
| RateLimit.Clock.Time | backend/pubmed_search.py:19 | `time.time()` returns the clock's reading, which is never earlier than the previous one; how much time the work since then took is left open |
| RateLimit.Clock.Sleep | backend/pubmed_search.py:22-24 | sleeping returns no sooner than the positive duration the limiter passes it; how much later is left open |
| RateLimit.RateLimiter.constructor | backend/pubmed_search.py:14-15 | the last request time starts at 0 and no request has been granted |
| RateLimit.RateLimiter.Acquire | backend/pubmed_search.py:17-26 | `_rate_limit`: the new grant time is at least 340 ms after the previous one and no earlier than the later of the time at the call and previous grant + 340 ms; the clock reads the grant time when the call returns; the grant log grows by it |
| RateLimit.SpacedSpan | backend/pubmed_search.py:15 | under the gate, `n` grants span at least `(n-1)·340` ms and grant `k` comes no earlier than `(k+1)·340` ms: under three requests per second |
| PubMedSearch.ExtractSignificantWords | backend/pubmed_search.py:112-123 | exactly the first min(8, n) of the n non-stop words found in the lower-cased title, in title order with duplicates kept; each has 3 or more lower-case ASCII letters, is not one of the 38 stop words, and occurs as a letter run with a word boundary on each side |
| PubMedSearch.BoundedRunsSound | backend/pubmed_search.py:121 | every match of `\b[a-zA-Z]{3,}\b` is a bounded letter run of length 3 or more in the text |
| PubMedSearch.BoundedRunsComplete | backend/pubmed_search.py:121 | `re.findall` is complete and ordered: one match per bounded run, and the run with `k` bounded runs before it is match `k` |
| PubMedSearch.BoundedRunsIndexed | backend/pubmed_search.py:121 | from any start outside a letter run, the run at `a` is the match whose index counts the runs between the start and `a` |
| PubMedSearch.BoundedRunsLength | backend/pubmed_search.py:121 | from any start outside a letter run, one match per run that starts after it |
| PubMedSearch.ThreeWordsAreLong | backend/pubmed_search.py:81-91 | a cleaned title with three significant words is longer than 10 characters, so strategy 3 never appears without strategy 1 |
| PubMedSearch.CleanTitle | backend/pubmed_search.py:76 | the title with every `"` and `:` removed, then stripped; `CleanTitleShape` states its shape |
| PubMedSearch.CleanTitleShape | backend/pubmed_search.py:76 | a cleaned title holds no `"` and no `:` and has no surrounding whitespace |
| PubMedSearch.TitleStrategies | backend/pubmed_search.py:78-100 | the strategies of a cleaned title in order of preference: exact phrase (over 10 characters), `[Title]`, all significant words (3 or more), the first five (2 or more), free text; `TitleStrategiesShape` and `FiveStrategies` state its shape |
| PubMedSearch.SearchStrategies | backend/pubmed_search.py:74-109 | the author-conjoined copies first when an author is given, then the plain list; `PlainStrategiesShape` and `AuthorStrategies` state its shape |
| PubMedSearch.TitleStrategiesShape | backend/pubmed_search.py:78-100 | two to five strategies; the last is the cleaned title; the exact-phrase query leads, followed by the `[Title]` query, exactly when the cleaned title exceeds 10 characters, and otherwise the `[Title]` query leads |
| PubMedSearch.PlainStrategiesShape | backend/pubmed_search.py:74-109 | the same shape for the whole strategy list of a call without an author |
| PubMedSearch.FiveStrategies | backend/pubmed_search.py:80-100 | without an author there are five strategies exactly when the cleaned title has at least three significant words |
| PubMedSearch.AuthorStrategies | backend/pubmed_search.py:102-107 | with a non-empty author the list is twice as long: first each plain strategy wrapped as `(q) AND "author"[Author]` with the author's commas removed and stripped, in order, then the plain list unchanged |
| PubMedSearch.IsGoodMatch | backend/pubmed_search.py:252-277 | `_is_good_match` at the 0.5 threshold: both titles non-empty and at least half of the query's non-stop words in the found title; `ContainedQueryMatches`, `MatchMonotone` and `MatchSharesAWord` state its properties |
| PubMedSearch.ContainedQueryMatches | backend/pubmed_search.py:252-277 | a found title whose words include every non-stop word of a non-empty query is always a good match, however long it is |
| PubMedSearch.MatchMonotone | backend/pubmed_search.py:269-277 | adding words to the found title never turns an accepted match into a rejection |
| PubMedSearch.MatchSharesAWord | backend/pubmed_search.py:269-277 | an accepted match shares at least one non-stop word with the query |
| PubMedSearch.FirstFourDigits | backend/pubmed_search.py:232 | `re.search(r'\d{4}')`: the leftmost run of four digits, or none anywhere |
| PubMedSearch.WithLastName | backend/pubmed_search.py:209-212 | only authors with a `LastName` child are kept |
| PubMedSearch.AuthorNamesAt | backend/pubmed_search.py:208-217 | the `k`-th name is built from the `k`-th author with a last name: `"ForeName LastName"`, or the last name alone |
| PubMedSearch.ParseArticle | backend/pubmed_search.py:196-250 | the record `_parse_article_xml` builds from a `PubmedArticle`; `ParseArticleFields` states its fallbacks |
| PubMedSearch.ParseArticleFields | backend/pubmed_search.py:196-250 | the fallbacks of `_parse_article_xml`: a missing title reads `''`; the journal title falls back to the ISO abbreviation, then to `''`; one author name per author with a last name; year, doi and abstract are read exactly when the publication date can be read, and are absent otherwise |
| PubMedSearch.PubYearFromMedlineDate | backend/pubmed_search.py:226-235 | with no `Year`: no `MedlineDate` gives `''`; otherwise the year is `''` exactly when the date text has no run of four digits, and else the four digits of the leftmost such run |
| PubMedSearch.AttemptAccepts | backend/pubmed_search.py:44-61 | a strategy accepts only the first PMID its own search returned, and only when that record's fetched title is a good match for the searched title |
| PubMedSearch.Decider | backend/pubmed_search.py:41-65 | the first strategy that does not move on: every earlier one moved on |
| PubMedSearch.RunDecidedByFirst | backend/pubmed_search.py:41-72 | the loop's result is decided by its first strategy that does not move on: that strategy's match, or `None` when it raised; the traffic is that of the strategies up to it; when every strategy moves on, `None` after all their traffic |
| PubMedSearch.RunFound | backend/pubmed_search.py:46-61 | a found article is the match of the deciding strategy, after exactly the traffic of the strategies up to it |
| PubMedSearch.AttemptTraffic | backend/pubmed_search.py:44-49 | one strategy searches exactly its own query, and every request it makes follows a rate-limit grant |
| PubMedSearch.PrefixTraffic | backend/pubmed_search.py:41-49 | the first `n` strategies search exactly the first `n` queries, in order, each request after a grant |
| PubMedSearch.ResolveAlternates | backend/pubmed_search.py:41-49 | the whole search alternates grant and request |
| PubMedSearch.ResolveShortCircuits | backend/pubmed_search.py:41-61 | a found article comes from some strategy `k` whose attempt accepted it; every strategy before `k` moved on; no query after `k` is sent |
| PubMedSearch.ResolveExhausts | backend/pubmed_search.py:41-68 | when nothing is found and no call raised, every strategy was tried, in order |
| PubMedSearch.RunUnfold | backend/pubmed_search.py:41-65 | one turn of the strategy loop: return on a match, end with `None` on an exception, otherwise go on |
| PubMedSearch.Searcher.constructor | backend/pubmed_search.py:12-15 | a new searcher has its own limiter, last request time 0, and no traffic |
| PubMedSearch.Searcher.SearchPubMed | backend/pubmed_search.py:125-159 | `_search_pubmed`: one grant then the search request; request and XML errors give `[]`, and anything else escapes |
| PubMedSearch.Searcher.GetArticleDetails | backend/pubmed_search.py:161-194 | `_get_article_details`: one grant then the fetch; the first `PubmedArticle` parsed; no article, a request error or an XML error gives `None` |
| PubMedSearch.Searcher.BuildTitleStrategies | backend/pubmed_search.py:76-100 | the appends build the ordered strategy list of the cleaned title |
| PubMedSearch.Searcher.BuildAllSearchStrategies | backend/pubmed_search.py:74-109 | the full strategy list, with the author-constrained copies first when an author is given |
| PubMedSearch.Searcher.TryStrategy | backend/pubmed_search.py:44-65 | one pass of the loop: its verdict and exactly its traffic |
| PubMedSearch.Searcher.RunStrategies | backend/pubmed_search.py:36-72 | the strategy loop returns the resolution of the given strategies and leaves exactly its traffic |
| PubMedSearch.Searcher.SearchArticle | backend/pubmed_search.py:28-72 | `search_article`: an empty title gives `None` without any request; otherwise the resolution of the built strategy list |
| ReferenceParser.MatchAt | backend/reference_parser.py:40-45 | a numbering pattern matched at `i` ends after `i` and within the text |
| ReferenceParser.NumberedAt | backend/reference_parser.py:41-44 | a newline, optional bracket, digits, closing mark and following whitespace: the end lies past the start |
| ReferenceParser.FirstMatch | backend/reference_parser.py:49 | `re.search`: the leftmost position where the pattern matches, or none anywhere |
| ReferenceParser.SplitRoundTrip | backend/reference_parser.py:50 | `re.split` loses nothing but the separators: weaving the removed separators back between the pieces gives the text again |
| ReferenceParser.SplitsIffOccurs | backend/reference_parser.py:49-50 | the split has more than one piece exactly when the pattern occurs |
| ReferenceParser.CleanPieces | backend/reference_parser.py:52 | only non-empty stripped pieces are kept, no more than there were |
| ReferenceParser.CleanPiecesIsFilterMap | backend/reference_parser.py:52 | the cleaning is "strip every piece, keep the non-empty ones, in order" |
| ReferenceParser.SplitPiecesClean | backend/reference_parser.py:47-58 | every reference returned by the split is non-empty and stripped |
| ReferenceParser.WinsWithoutSearch | backend/reference_parser.py:49-53 | the `re.search` guard is redundant: a pattern is used exactly when its split leaves more than one piece |
| ReferenceParser.FirstWinnerUsed | backend/reference_parser.py:48-54 | the split used is that of the first pattern, in the fixed order, that leaves more than one piece |
| ReferenceParser.NoWinnerFallback | backend/reference_parser.py:56-58 | when no numbering pattern wins, the text is split on blank lines |
| ReferenceParser.SplitReferences | backend/reference_parser.py:37-58 | `_split_references`: the loop's result is the split of the first winning pattern, else the blank-line split |
| ReferenceParser.CleanAuthorName | backend/reference_parser.py:169-179 | the cleaned name is the name's words joined by dashes with every character but word characters and dashes dropped; it is `Unknown` exactly when the name is empty, nothing is left, or what is left is `Unknown` itself; never empty |
| ReferenceParser.CleanAuthorNameIdempotent | backend/reference_parser.py:169-179 | cleaning a cleaned name changes nothing |
| ReferenceParser.QuotedAt | backend/reference_parser.py:185 | `"([^"]+)"` at `i`: quote, a non-empty content without quotes, quote |
| ReferenceParser.FirstQuoted | backend/reference_parser.py:185-192 | the leftmost quoted span, or none anywhere |
| ReferenceParser.SentenceAt | backend/reference_parser.py:186 | the sentence pattern at `i`: a capital there; the group starts with a capital and ends at the first full stop after it |
| ReferenceParser.FirstSentence | backend/reference_parser.py:186-192 | the leftmost match of the sentence pattern, or none anywhere |
| ReferenceParser.RStrip | backend/reference_parser.py:196 | `rstrip(chars)`: a prefix of the input with only listed characters removed from the end, and none left at the end |
| ReferenceParser.TitleFallback | backend/reference_parser.py:181-196 | `_extract_title_fallback`: quoted content, else the sentence-pattern group, else the first ten words; `TitleFallbackQuoted` and `TitleFallbackWords` state its cases |
| ReferenceParser.TitleFallbackQuoted | backend/reference_parser.py:184-192 | a quoted title wins: the fallback title is the first quoted content, stripped, and contains no quote |
| ReferenceParser.TitleFallbackWords | backend/reference_parser.py:194-196 | with neither pattern, the title is the first ten words joined by spaces with only trailing `.`, `,` and `;` cut off, and none of those left at its end |
| ReferenceParser.AuthorFallback | backend/reference_parser.py:198-205 | the fallback author is `Unknown` for a blank text; otherwise it is the word characters of the first whitespace-separated token, or `Unknown` when that token has none |
| ReferenceParser.FirstYear | backend/reference_parser.py:210 | the leftmost word-bounded `19xx`/`20xx`, or none anywhere |
| ReferenceParser.YearFallback | backend/reference_parser.py:207-211 | the year is four digits starting `19` or `20` and is the first word-bounded such year in the text; none exactly when no such year occurs |
| ReferenceParser.CleanField | backend/reference_parser.py:151-154 | a field kept from the model's answer is stripped |
| ReferenceParser.ParseSingleReference | backend/reference_parser.py:60-167 | the fields cleaned from the model's answer, or the regular-expression fallbacks when the call fails or a field cannot be read; `ParsedReferenceShape` states its properties |
| ReferenceParser.ParsedReferenceShape | backend/reference_parser.py:140-167 | whatever the model returns, the first author is non-empty word characters and dashes; a failed call, or an answer whose `title`, `first_author`, `journal` or `year` is a truthy non-string (on which `.strip()` raises), gives the fallbacks with no journal; a usable answer gives stripped fields |
| ReferenceParser.ParsedTextsOfClean | backend/reference_parser.py:24-29 | every stripped non-empty text yields exactly one parsed reference at its own index, carrying the text as `original_text` |
| ReferenceParser.ParseEach | backend/reference_parser.py:24-31 | the loop of `parse_references` collects the non-blank texts, stripped, each with its parse |
| ReferenceParser.ParseReferences | backend/reference_parser.py:15-31 | one parsed reference per piece of the split, in order, each the parse of its piece and carrying the piece as `original_text` |
| Database.ColumnSetOfColumns | backend/database.py:16-30 | the column set is that of the thirteen columns |
| Database.RowOverShape | backend/database.py:52-58 | the row built over a column list has exactly those keys, each with its column value |
| Database.EntryRowShape | backend/database.py:52-58 | the stored row has exactly the table's columns; `created_at` is the call's time; any other column holds the given value or `None`; other keys are dropped |
| Database.EntryRowCell | backend/database.py:57-58 | one column of the stored row, other than `created_at`: the given value or `None` |
| Database.FirstWithPmid | backend/database.py:97-103 | the first row whose pmid reads back as the key; none exactly when no row has it |
| Database.SearchRowsMeaning | backend/database.py:123-135 | an empty query gives every row; otherwise exactly the rows where the lower-cased query is in a lower-cased title or the author, or in the pmid, in table order |
| Database.FilterComplement | backend/database.py:228-229 | every row is counted as successful or as failed, never both |
| Database.FilterInclusionExclusion | backend/database.py:230-232 | txt + pdf counts = both + either |
| Database.BothBounded | backend/database.py:230-232 | the both-available count is at most each single count |
| Database.StatsConsistent | backend/database.py:226-233 | the statistics agree with each other: successful + failed = total, both ≤ txt, both ≤ pdf, txt + pdf − both ≤ total |
| Database.UpdatedRowsMeaning | backend/database.py:203-206 | an update keeps the row count, order and columns; it leaves other pmids alone and sets exactly the given keys that are columns on the matching rows |
| Database.KeptMeaning | backend/database.py:256-261 | a delete removes every row with the pmid and keeps the others; the count changes exactly when some row had it |
| Database.DatabaseManager.constructor | backend/database.py:9-40 | a new table file holds the header only |
| Database.DatabaseManager.NewEntry | backend/database.py:52-58 | the column loop builds the stored row |
| Database.DatabaseManager.AddEntry | backend/database.py:42-72 | `add_entry` appends exactly that row and reports `True`, or on a file error reports `False` and changes nothing |
| Database.DatabaseManager.PmidExists | backend/database.py:74-88 | `True` exactly when the file reads, the pmid is non-empty and some row has it |
| Database.DatabaseManager.GetEntryByPmid | backend/database.py:90-113 | the first row with the pmid; `None` exactly when the file fails or no row has it |
| Database.DatabaseManager.SearchEntries | backend/database.py:115-152 | the search result is all rows for an empty query, else exactly the matching rows; `[]` on a file error |
| Database.DatabaseManager.GetFailedEntries | backend/database.py:154-181 | exactly the rows whose status is not `success`; `[]` on a file error |
| Database.DatabaseManager.GetAllEntries | backend/database.py:183-188 | every row, or `[]` on a file error |
| Database.DatabaseManager.GetStatistics | backend/database.py:218-245 | the counts, consistent with each other and with the failed-entries list; the empty record exactly on a file error |
| Database.DatabaseManager.PatchMatching | backend/database.py:203-206 | the masked assignment patches every row with the pmid |
| Database.DatabaseManager.UpdateEntry | backend/database.py:190-216 | `update_entry` succeeds exactly when the file reads and some row has the pmid, and then patches those rows; otherwise nothing changes |
| Database.DatabaseManager.DropMatching | backend/database.py:256-257 | the filtered reassignment keeps exactly the rows with another pmid |
| Database.DatabaseManager.DeleteEntry | backend/database.py:247-271 | `delete_entry` succeeds exactly when the file reads and some row has the pmid, and then drops them all; otherwise nothing changes |
| Database.LookupAfterAdd | backend/database.py:42-103 | a pmid added to a table that lacked it is then found, at the added row |
| Database.GoneAfterDelete | backend/database.py:247-261 | after a delete the pmid is not found |
| Database.LookupAfterUpdate | backend/database.py:190-216 | an update that leaves the pmid column alone keeps the same first row findable, now patched |
| ContentDownloader.ExtractText | backend/content_downloader.py:233-249 | the extracted text is stripped |
| ContentDownloader.LeafText | backend/content_downloader.py:239-249 | a leaf gives its stripped text, or `''` without text |
| ContentDownloader.ChildTextKept | backend/content_downloader.py:242-249 | the text of every child that has any appears intact in the parent's text |
| ContentDownloader.CandidateSound | backend/content_downloader.py:117-124 | every candidate PMC id is an `Id` under a `Link` of a `LinkSetDb` whose `DbTo` is `pmc`, inside a `LinkSet` of the document |
| ContentDownloader.LinkIdSound | backend/content_downloader.py:118-122 | a candidate of a link set database is a `Link/Id` of a `pmc` database |
| ContentDownloader.FirstSetLink | backend/content_downloader.py:118-124 | the inner loops find a link exactly when the link set has a candidate, and then find its first |
| ContentDownloader.FindPmcId | backend/content_downloader.py:117-126 | the nested loops return the text of the first candidate in document order, or `None` |
| ContentDownloader.AbstractPartsMeaning | backend/content_downloader.py:165-168 | every abstract part is a labelled non-empty abstract text, and every abstract with text has its part |
| ContentDownloader.SectionPartsRaise | backend/content_downloader.py:171-177 | assembling raises exactly when some section with text has a `title` child without text |
| ContentDownloader.FullTextRaises | backend/content_downloader.py:171-195 | such a section leaves no full text at all |
| ContentDownloader.FullTextOf | backend/content_downloader.py:157-185 | the title, the labelled abstracts and the sections joined by blank lines, or none when a section raises or the text is under 100 characters stripped; `FullTextRaises`, `FullTextKeepsAbstract` and `AssembleFullText` state its properties |
| ContentDownloader.FullTextKeepsAbstract | backend/content_downloader.py:157-185 | the labelled text of every abstract with text is in the full text |
| ContentDownloader.AbstractLoop | backend/content_downloader.py:165-168 | the abstract loop collects the abstract parts |
| ContentDownloader.SectionLoop | backend/content_downloader.py:171-177 | the section loop collects the section parts, or raises |
| ContentDownloader.AssembleFullText | backend/content_downloader.py:157-185 | the full text of the document; `None` when it is under 100 characters once stripped or when assembling raises |
| ContentDownloader.PdfOf | backend/content_downloader.py:207-224 | a PDF is the first URL's body when it is accepted (status 200, content type mentioning `pdf`), else the alternative URL's accepted body; `None` exactly when the first is not accepted and either that request raised or the alternative is not accepted |
| ContentDownloader.FulltextForMeaning | backend/content_downloader.py:35-63 | saved full text is at least 100 characters once stripped; without a usable PMC id nothing is read beyond the elink request |
| ContentDownloader.FulltextVia | backend/content_downloader.py:40-51 | with a usable PMC id, the full text is that id's efetch, after exactly the elink and efetch requests |
| ContentDownloader.FulltextThrottled | backend/content_downloader.py:95-150 | every elink and efetch request of the full-text flow directly follows a rate-limit grant |
| ContentDownloader.AltPdfUnthrottled | backend/content_downloader.py:202-217 | the alternative PDF request has no grant of its own: one grant covers two requests |
| ContentDownloader.Downloader.constructor | backend/content_downloader.py:11-22 | a new downloader has its own limiter at time 0, no files and no traffic |
| ContentDownloader.Downloader.Throttle | backend/content_downloader.py:24-33 | one limiter grant, then the request; the files are unchanged |
| ContentDownloader.Downloader.GetPmcId | backend/content_downloader.py:95-133 | `_get_pmc_id`: one grant and the elink request; the first candidate; `None` on a request or XML error; anything else escapes |
| ContentDownloader.Downloader.DownloadPmcFulltext | backend/content_downloader.py:135-195 | `_download_pmc_fulltext`: one grant and the efetch request; the assembled text; `None` on any error |
| ContentDownloader.Downloader.DownloadPmcPdf | backend/content_downloader.py:197-231 | `_download_pmc_pdf`: the accepted PDF body, after exactly one grant and one or two requests |
| ContentDownloader.Downloader.DownloadFulltext | backend/content_downloader.py:35-63 | `download_fulltext` writes `filename.txt` and reports `True` exactly when a usable PMC id and a long enough text were found; otherwise no file changes |
| ContentDownloader.Downloader.DownloadPdf | backend/content_downloader.py:65-93 | `download_pdf` writes `filename.pdf` and reports `True` exactly when a usable PMC id and a non-empty accepted PDF were found; otherwise no file changes |
| JobProcessor.JobStore.constructor | backend/job_processor.py:38 | the store holds the jobs' texts and no writes yet |
| JobProcessor.JobStore.UpdateJobStatus | backend/job_processor.py:44 | a status update is appended to the log; results are untouched |
| JobProcessor.JobStore.AddJobResult | backend/job_processor.py:56-59 | a result is appended to the log; statuses are untouched |
| JobProcessor.OutcomeFor | backend/job_processor.py:127-202 | the outcome of `_process_single_reference` for one reference; `OutcomeCases` states its cases |
| JobProcessor.OutcomeCases | backend/job_processor.py:127-202 | the helper's outcome cases. A duplicate needs a non-empty known `pmid`. A search failure is an empty search. A success holds the found article and `first_author_pmid` as file name. An error is a raising references download. Exactly duplicates and errors add no entry |
| JobProcessor.FailedEntryRow | backend/job_processor.py:141-154 | the entry of a search failure has no PMID, status `pubmed_search_failed`, both flags false, and no `ref_available` column |
| JobProcessor.SuccessEntryRow | backend/job_processor.py:161-186 | the entry of a success is found under its PMID, with its file name, status `success`, and no `ref_available` column |
| JobProcessor.SuccessEntryFlags | backend/job_processor.py:165-176 | the entry of a success carries the text and PDF download flags |
| JobProcessor.ParsedNeverDuplicate | backend/job_processor.py:130-136 | a parsed reference never carries a `pmid`, so it is never a duplicate, whatever the table holds |
| JobProcessor.Worker | backend/job_processor.py:34-125 | one `_process_job` run as its status writes, result rows, entries and final flag; the `Worker*` lemmas state its properties |
| JobProcessor.WorkerRan | backend/job_processor.py:62-116 | a parsed job's run: statuses, results and entries of the items up to the stop point |
| JobProcessor.OutcomesAt | backend/job_processor.py:66-74 | the `k`-th outcome is that of the `k`-th reference |
| JobProcessor.HaltMeaning | backend/job_processor.py:66-69 | the loop stops only on the flag: every item before the stop point saw it clear, the item at the stop point saw it set, and a flag already set stops before the first item |
| JobProcessor.ResultRowsAt | backend/job_processor.py:76-89 | the `k`-th result row is that of item `k` |
| JobProcessor.ProgressLogAt | backend/job_processor.py:100-105 | the `k`-th progress update carries the counters of the first `k + 1` outcomes |
| JobProcessor.CountsGrow | backend/job_processor.py:76-105 | neither counter goes down as more items run |
| JobProcessor.SuccessesPositive | backend/job_processor.py:111 | `completed_refs > 0` exactly when some item succeeded |
| JobProcessor.WorkerUnknownJob | backend/job_processor.py:38-41 | an unknown job writes nothing |
| JobProcessor.WorkerParseFailure | backend/job_processor.py:50-60 | a raising parser fails the job with one `error` result at index 0 carrying the message, and runs no item |
| JobProcessor.WorkerResults | backend/job_processor.py:66-98 | exactly one result per item run, at its own index, with its title; `success` exactly when the item succeeded, never `error` |
| JobProcessor.StatusListAt | backend/job_processor.py:100-116 | each status write after the first: progress with the counters so far, then the final status with all counters |
| JobProcessor.WorkerStatuses | backend/job_processor.py:43-116 | `processing` first, then one progress write per item, then the final status; it is `completed` exactly when some item succeeded, so zero items give `failed`; the final counters sum to the items run |
| JobProcessor.WorkerWithReferenceParser | backend/job_processor.py:49-51 | with the reference parser as `parse`, the job is never failed by parsing: the items are the pieces of the split, item `k` is written at index `k` with the title parsed from piece `k`, never as `error`, and `processing` is the first status |
| JobProcessor.StatusListMonotone | backend/job_processor.py:100-116 | along the status writes after the first, neither counter decreases |
| JobProcessor.WorkerProgressMonotone | backend/job_processor.py:100-116 | progress of a worker run never goes back |
| JobProcessor.WorkerStopped | backend/job_processor.py:66-69 | a worker that starts with the flag set runs no item and fails the job with zero counters |
| JobProcessor.JobRowsSucceeded | backend/job_processor.py:76-78 | the successful entries a job adds are as many as its completed items |
| JobProcessor.CountsStep | backend/job_processor.py:76-84 | each item bumps exactly one counter |
| JobProcessor.Processor.constructor | backend/job_processor.py:14-20 | no job in flight and the flag clear |
| JobProcessor.Processor.ProcessSingleReference | backend/job_processor.py:127-202 | `_process_single_reference` returns the outcome of the reference and appends exactly its entry rows, unless the file fails |
| JobProcessor.Processor.ProcessItem | backend/job_processor.py:73-105 | one item: its outcome, one result row, one counter bumped, one progress update, and its entry rows |
| JobProcessor.Processor.Advance | backend/job_processor.py:66-105 | one turn of the item loop keeps the logs equal to those of the items run so far |
| JobProcessor.Processor.ItemLoop | backend/job_processor.py:66-109 | the item loop writes exactly the logs of the items up to the stop point, and leaves the flag set if it stopped early |
| JobProcessor.Processor.RunItems | backend/job_processor.py:62-116 | the loop, then the final status, `completed` exactly when some item succeeded |
| JobProcessor.Processor.ProcessJob | backend/job_processor.py:34-125 | `_process_job` leaves in the store and the table exactly what the worker specification gives, and the job leaves the in-flight set whatever happened |
| JobProcessor.Processor.ProcessJobAsync | backend/job_processor.py:22-32 | a job in flight is refused and nothing changes; otherwise its worker runs |
| JobProcessor.Processor.StopProcessing | backend/job_processor.py:204-207 | sets the one flag every worker checks; nothing else changes |
| JobProcessor.Processor.GetProcessingJobs | backend/job_processor.py:209-211 | exactly the in-flight ids, each once |

## Left out

- Threads: `process_job_async` runs the worker to its end as a direct call. Another thread's `stop_processing` during a run is the oracle `interrupt(k)`, read once before each item. Interleaving with other workers is not modelled.
- The `time.sleep(0.1)` between items is left out; it changes no state.
- Logging is left out throughout.
- Integers are unbounded and time is in whole milliseconds. `time.time()` is a float in seconds; the 0.34 s delay is 340 ms.
- Regular expressions are modelled by hand for the patterns the code uses. `\s`, `\d` and `\w` are their ASCII forms; Unicode whitespace, digits and letters are not modelled.
- `str.lower` and `str.upper` are ASCII only.
- `str.contains` in `search_entries` uses regular-expression syntax. The model treats the query as a literal substring, so a query holding regex metacharacters is not modelled.
- Pandas: every cell is modelled as read back with its own type. Type inference on re-reading the CSV is not modelled, for example a PMID column read as numbers. `NaN` is `Null`, and it reads back as `"nan"` under `astype(str)`.
- Database.DatabaseManager.GetStatistics: leaves out the float `success_rate`, because it is a division of two of the counts it returns.
- Database.DatabaseManager.constructor: starts from an empty table. Opening an existing CSV file that already holds rows is not modelled; every other operation works on any rows.
- The directories that `ContentDownloader.__init__` creates are not modelled.
- The CSV file and its I/O are a row sequence. Whether reading or writing fails is the constructor parameter `failing`. A file that fails on some calls but not others is not modelled.
- The file writes of `download_fulltext` and `download_pdf` are maps from file name to content. A failing file write (its `except` path) is not modelled.
- The HTTP requests, the efetch XML parse and the elink XML parse are inputs returning tagged replies. The XML comes already parsed as an element tree.
- In `_search_pubmed`, an `Id` element without text puts `None` in the PMID list. This is not modelled, because the search reply is a list of strings.
- The language-model call, its two client versions, the `proxies` retry and JSON decoding are one input. It gives the decoded object, or nothing when any of them failed. A reply that is valid JSON but not an object is "nothing".
- `ReferenceParser.__init__` and its API-key check are not modelled; they read the environment.
- `get_job`, `update_job_status` and `add_job_result` are not defined in `database.py`. The model gives them the smallest store that records the worker's writes (`JobStore`); the stored job record is reduced to its `references_text`.
- `download_references` is not defined in `content_downloader.py`. It is the input `Services.references`, which may raise. As written it always raises (`AttributeError`), so every found reference ends as an `error` outcome with no entry.
- The per-item `except` (job_processor.py:91-98) and the outer `except` (job_processor.py:120-122) are not modelled. The helper catches everything, and the store here does not raise, so neither is reachable in the model.
- JobProcessor.Worker: its reference parser is the input `parse`, which may raise, as `parse_references` may re-raise. `WorkerWithReferenceParser` instantiates it with the reference parser of `reference_parser.dfy`, which never raises: the items are then the pieces of the split.
- Services: the search, download and PDF collaborators of `_process_single_reference` are inputs. `Services.search` stands for `PubMedSearch.Searcher.SearchArticle` called without an author, but the model does not connect the two.
- The `datetime.now()` of each new entry is the input `stamps(k)` for item `k`.
- `app.py`, the debug and test scripts, and the HTTP surface are not part of this model.

## Where the code and the design differ

The model follows the code in each case.

- Duplicates: the design records a duplicate distinctly and counts it as completed. The code writes a duplicate as a `failed` result and counts it as failed.
- Duplicate detection: the code checks only a `pmid` the reference already carries. The parser never sets one (`ParsedNeverDuplicate`), so no item is ever a duplicate, and two references that resolve to the same PMID add two entries.
- Cancellation: the design has per-job cancellation that can answer "not found". The code has one global flag (`stop_processing`). It is never cleared, so once set, every later job fails with no item run (`WorkerStopped`).
- Status values: the `cancelled` status is never written. A stopped job ends `completed` or `failed` by its counts.
- Rate limiting: the design promises at most three requests per second. In the code the searcher and the downloader each own a separate limiter. The alternative PDF request is not rate-limited (`AltPdfUnthrottled`).
- Entry statuses: only `pubmed_search_failed` and `success` entries are written. The `ref_available` key is dropped, because it is not a column.
