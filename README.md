# describe_bot message and storage core, in Dafny

describe_bot is a chat bot: a user sends a company's website, and the bot
describes the company and then answers questions about it. This project models
the deterministic core of `services.py` and proves properties of it. Four
parts are modelled:

- **The message classifier.** `parse_url_from_message` sorts a message into one
  of three results: a bare `/start`, a website with an optional question, or a
  plain question. Along the way it strips the `/start` command and repairs
  `label_tld` into `label.tld`. It then matches the URL pattern, retries once
  with `.com` added, and puts `https://` in front. The pattern's host grammar is
  the label grammar of section 2.1 of RFC 1123, and the model recognises it by
  hand: labels of 1 to 63 letters, digits or interior hyphens, then a
  top-level domain of at least two letters.
- **The conversation store.** `save_url_to_db` and `get_latest_url` work on a
  table of rows `(dialog_id, website, content, created_at)`. A save is an
  upsert keyed on dialog and website. The lookup returns the dialog's row with
  the latest `created_at`. The store is a class holding the rows and a clock
  that stands in for `datetime.utcnow()`.
- **The company-record marker.** `save_url_to_db` appends the dumped company
  record behind `YANDEX_COMPANY_INFO: `. The two prompt builders take it out
  again with a greedy regular-expression search and `str.replace`. A company
  name of "Unknown" is read as no name.
- **The whitespace collapse.** This is the tail of `clean_html_content`, which
  works on the text the HTML parser extracted.

Modules:

| module | file | what it holds |
|---|---|---|
| `Options` | `options.dfy` | `Option` |
| `PyStrings` | `py_strings.dfy` | Python `str` operations: `isspace`, `strip`, `split()[0]`, `replace`, `find` |
| `UrlPattern` | `url_pattern.dfy` | the URL regular expression of services.py:50 and its match |
| `Classifier` | `classifier.dfy` | `parse_url_from_message` |
| `Cleaner` | `cleaner.dfy` | the tail of `clean_html_content` |
| `Enrichment` | `enrichment.dfy` | appending and extracting the company record |
| `Store` | `store.dfy` | the table, the upsert, the latest-row lookup, and the `ConversationStore` class |

The underscore repair is meant to reattach the rest of the message after the
first word. The code slices that rest from index `len(first word)` of the whole
text, which is wrong when the text starts with whitespace (see Findings).
`Classifier.Classify` uses the repair as intended.
`Classifier.ClassifyAsWritten` is the code as written. The two are proved
equal on every message that does not start with whitespace.

## Model

| member | source | states |
|---|---|---|
| PyStrings.Strip | services.py:32 | `strip()` leaves no whitespace at either end, and removes only whitespace: a leading run, then the result, then only whitespace |
| PyStrings.StripEmptyIff | services.py:34 | a stripped text is empty exactly when the text was all whitespace |
| PyStrings.FirstWord | services.py:40 | `split()[0]` is a non-empty run without whitespace, starts after the leading whitespace, and ends at whitespace or at the end |
| PyStrings.ReplaceChar | services.py:41 | `replace('_', '.')` keeps the length and swaps exactly the underscores |
| PyStrings.StripParts | services.py:32 | every text is a whitespace run, its stripped form, and a whitespace run, in that order |
| PyStrings.Find | services.py:324 | the leftmost occurrence of the marker, and none before it; None only when it occurs nowhere |
| PyStrings.LastIndexOfChar | services.py:324 | greedy `.*` with DOTALL ends at the last `}`: that index holds `}` and no later index does |
| PyStrings.ReplaceAll | services.py:329 | `str.replace` with a replacement equal to the pattern leaves the text alone, and one no longer than the pattern never lengthens it |
| PyStrings.ReplaceAllSingle | services.py:329 | `str.replace` on a pattern that occurs exactly once cuts out exactly that occurrence |
| UrlPattern.IsHostName | services.py:50 | an accepted host has at least four characters and a dot, starts with a letter or digit and ends with a letter |
| UrlPattern.HostNameParse | services.py:50 | every host the recogniser accepts splits into one or more labels and a top-level domain, joined by dots |
| UrlPattern.ParsedHostName | services.py:50 | every such split is accepted by the recogniser |
| UrlPattern.HostNameIffParse | services.py:50 | the recogniser accepts exactly the `(label\.)+tld` strings |
| UrlPattern.HostNameChars | services.py:50 | a host name holds a dot and only letters, digits, hyphens and dots, and starts with a letter or digit |
| UrlPattern.UrlTokenParseOf | services.py:50 | every accepted group 1 is an optional scheme, an optional `www.`, a host name, and an optional `/path` without whitespace |
| UrlPattern.ParsedUrlToken | services.py:50 | every string built from those parts is accepted |
| UrlPattern.UrlTokenIffParse | services.py:50 | group 1 is recognised exactly when it has the grammar's parts |
| UrlPattern.UrlTokenShape | services.py:50 | group 1 holds at least four characters and a dot, and starts with a letter or digit |
| UrlPattern.MatchUrl | services.py:49-52 | a match's group 1 is a recognised URL and a prefix of the text |
| UrlPattern.MatchUrlSound | services.py:49-52 | every match is a match of the whole pattern: group 3 is absent only when nothing follows group 1, group 3 is one line after a whitespace run with at most one final line feed, and it does not start with whitespace |
| UrlPattern.MatchTailSound | services.py:50 | the tail `(?:\s+(.*))?$` as matched is a whitespace run, group 3 without a line feed, and at most one final line feed, and group 3 does not start with whitespace |
| UrlPattern.MatchUrlComplete | services.py:49-52 | whenever the pattern matches, MatchUrl finds that match with the same group 1 |
| UrlPattern.MatchUrlAlone | services.py:49-52 | a recognised URL alone matches, without group 3 |
| UrlPattern.MatchUrlWithQuery | services.py:49-52 | a recognised URL, one space and a one-line question match, with the question as group 3 |
| UrlPattern.PrependHttps | services.py:78-79 | putting `https://` in front of a URL without a scheme keeps it recognised, with the same host |
| Classifier.IsStartCommand | services.py:31 | the lower-cased text starts with `/start` exactly when its first six characters are `/` and the letters s, t, a, r, t in either case |
| Classifier.AfterStart | services.py:30-35 | `start_empty` happens exactly when the text starts with `/start` in any letter case and only whitespace follows; after `/start` the text goes on as the non-empty `strip()` of what follows the six characters; otherwise it goes on unchanged |
| Classifier.NeedsUnderscoreRepair | services.py:38 | a text that needs the repair holds a non-whitespace character, so `split()[0]` exists |
| Classifier.RepairUnderscoresAsWritten | services.py:40-44 | as written: the first word with every `_` made `.`; then nothing exactly when the text from index `len(first word)` on is all whitespace, and otherwise one space and exactly that text stripped |
| Classifier.RepairUnderscores | services.py:38-44 | as intended: the first word with every `_` made `.`, no longer than the text; then nothing exactly when the rest of the message after its first word is all whitespace, and otherwise one space and exactly that rest stripped |
| Classifier.UnderscoreJoined | services.py:41 | `label_tld` has no whitespace, needs the repair, and is repaired to `label.tld` |
| Classifier.MatchWithRetry | services.py:54-69 | whatever the retry returns is a recognised URL |
| Classifier.RetryOnlyWhen | services.py:56-69 | the retry changes the result only after a failed first match, for a text with no space character that is longer than three characters and has no dot, and then it is the match of the text plus `.com` |
| Classifier.WithScheme | services.py:77-79 | the site has a scheme, is recognised, has the same host and ends with group 1; it is group 1 unchanged exactly when that already has a scheme, and otherwise exactly `https://` followed by group 1 |
| Classifier.QueryOf | services.py:73-86 | `query` is present exactly when group 3 exists and is not all whitespace, and it is group 3 stripped |
| Classifier.Outcome | services.py:71-93 | the fallback to a plain question happens exactly when nothing matched, and it carries the original text; otherwise the site is group 1 of the match given a scheme, and the query is group 3 as `QueryOf` reads it; a site has a scheme and is recognised; a query is non-empty and stripped; the dialog id is echoed |
| Classifier.Classify | services.py:23-93 | the dialog id is echoed; `start_empty` exactly for `/start` followed by only whitespace; a plain question carries the text as received; a site has a scheme and a valid host; a query is non-empty and stripped |
| Classifier.MissingMessage | services.py:25-26 | a missing message is classified as the empty text, which is a plain question with the empty text |
| Classifier.ClassifyAsWritten | services.py:23-93 | the code as written keeps every promise of `Classify`: the dialog id is echoed; `start_empty` exactly for `/start` followed by only whitespace; a plain question carries the text as received; a site has a scheme and a valid host; a query is non-empty and stripped |
| Classifier.ShortTextIsQuery | services.py:56-69 | a message of at most three characters is always a plain question: short words such as `hi` never become sites |
| Classifier.UrlAloneIsSite | services.py:49-89 | a message that is a recognised URL becomes that site, with `https://` when it has no scheme, and no query |
| Classifier.UrlWithQueryIsSite | services.py:49-89 | a URL, one space and a stripped one-line question become that site with that question as its query |
| Classifier.StartThenUrl | services.py:30-89 | `/start` in any letter case, one space and a recognised URL become that site, with `https://` when it has no scheme, and no query |
| Classifier.LabelWidensToCom | services.py:56-69 | a single host label longer than three characters becomes `https://label.com` |
| Classifier.RepairAgreesWithoutLeadingSpace | services.py:40-44 | without leading whitespace, the repair as written and the repair as intended agree |
| Classifier.ClassifyAgreesWithoutLeadingSpace | services.py:23-93 | on messages that do not start with whitespace, the code as written and the model classify alike |
| Classifier.RepairMisplacesRest | services.py:40-44 | for one space and then a word with `_` and no `.`, the code as written puts the word's last character after the repaired word, although nothing follows the word |
| Classifier.MisalignedAsWritten | services.py:38-89 | as written, `" " + label + "_" + tld` becomes the site `https://label.tld` with the last letter of the top-level domain as its query |
| Classifier.MisalignedRepaired | services.py:38-89 | repaired, the same message becomes the site `https://label.tld` without a query |
| Cleaner.SplitLines | services.py:309 | `splitlines()` gives lines with no line boundary in them |
| Cleaner.LineEnds | services.py:309 | each line is followed by one boundary (`\r\n` or one line-break character), except that the last line may have none |
| Cleaner.SplitLinesRejoin | services.py:309 | putting every line back in front of its boundary gives the text back: `splitlines()` loses only the boundaries |
| Cleaner.LineEndsExact | services.py:309 | `\r\n` is one boundary, never a `\r` that ends a line followed by an empty line ended by `\n`; and a last line without a boundary is not empty, so a final boundary opens no empty line |
| Cleaner.VisibleLines | services.py:309 | the non-whitespace characters of the lines, in order, are exactly those of the text |
| Cleaner.Split | services.py:310 | `split("  ")` gives at least one piece, no piece holds a double space, joining the pieces with a double space gives the line back, and every cut is at the leftmost double space: no piece but the last, followed by one space, holds a double space |
| Cleaner.LeftmostCut | services.py:310 | the text in front of the leftmost occurrence of the separator, followed by all of the separator but its last character, holds no occurrence |
| Cleaner.VisibleSplit | services.py:310 | the non-whitespace characters of the pieces, in order, are exactly those of the line |
| Cleaner.VisibleJoinSpace | services.py:310-311 | joining pieces with a whitespace separator keeps exactly their non-whitespace characters, in order |
| Cleaner.Phrases | services.py:310 | a line gives at least one phrase, every phrase is stripped, and the phrases are, one for one and in order, the stripped pieces of `split("  ")` on the stripped line |
| Cleaner.PhrasesCollapsed | services.py:310 | a collapsed line is its own only phrase |
| Cleaner.Chunks | services.py:309-310 | the lines give at least as many chunks as there are lines, and every chunk is stripped |
| Cleaner.ChunksOne | services.py:310 | the chunks of one line are its phrases |
| Cleaner.ChunksConcat | services.py:309-310 | the chunks of two runs of lines are the chunks of the first run, then those of the second |
| Cleaner.NonEmpty | services.py:311 | the filter `if chunk` keeps only non-empty chunks, and keeps none exactly when every chunk is empty |
| Cleaner.NonEmptyOne | services.py:311 | the filter keeps a single chunk exactly when it is not empty |
| Cleaner.NonEmptyConcat | services.py:311 | the filter of two runs of chunks is the filter of the first run, then that of the second |
| Cleaner.StripAll | services.py:309-310 | each piece is stripped, and the number of pieces stays the same |
| Cleaner.PhrasesShape | services.py:310 | every phrase of a line is stripped and has neither a line boundary nor a double space |
| Cleaner.ChunksShape | services.py:309-310 | every chunk of every line has that shape |
| Cleaner.JoinNonEmpty | services.py:311 | the result is `' '.join` of the non-empty chunks, and it is empty exactly when every chunk is empty |
| Cleaner.JoinCollapsed | services.py:311 | joining such chunks with one space gives one stripped line without a double space |
| Cleaner.VisibleJoin | services.py:311 | the non-whitespace characters of the joined text, in order, are exactly those of the chunks |
| Cleaner.Collapse | services.py:308-311 | the result is one stripped line without a double space |
| Cleaner.CollapseKeepsVisible | services.py:308-311 | the result holds exactly the non-whitespace characters of the text, in order |
| Cleaner.CollapseFixesCollapsed | services.py:308-311 | a text already of that shape comes back unchanged |
| Cleaner.CollapseIdempotent | services.py:308-311 | cleaning twice is cleaning once |
| Cleaner.CollapseDoubleSpace | services.py:308-311 | two already-collapsed non-empty texts separated by a double space come back joined by a single space |
| Cleaner.CollapseLineBreak | services.py:308-311 | two collapsed non-empty texts separated by one line-boundary character come back joined by a single space |
| Cleaner.LinesAtBreak | services.py:309 | one line-boundary character between two texts without one cuts them into exactly those two lines |
| Cleaner.ChunksOfTwo | services.py:309-310 | two collapsed lines are their own chunks |
| Enrichment.Combine | services.py:109-113 | without a record the stored text is the cleaned page text; with one the page text stays in front and the record comes last, with room for two line feeds and the marker between them |
| Enrichment.FindInfo | services.py:324 | `re.search` with DOTALL: the match starts at the leftmost marker with a brace and ends at the last `}` after it, no other match starts earlier or ends later, and there is no match at all when it returns none |
| Enrichment.MatchOccursOnce | services.py:324-329 | the matched text occurs in the stored text only where it was matched |
| Enrichment.RemoveMatch | services.py:329 | `replace(group(0), "")` cuts out exactly the match |
| Enrichment.ReadStored | services.py:322-331 | with no match or with a record that does not parse, the text is kept whole and there is no record; otherwise the record is group 1, it is a brace-delimited object that parses, and the text loses exactly the match; whenever there is a match, a record comes back exactly when group 1 parses |
| Enrichment.CompanyName | services.py:336-338 | the name is never "Unknown"; it is empty exactly when the field is missing, empty or "Unknown", and otherwise it is the field |
| Enrichment.FirstMarker | services.py:113 | in a stored text whose page text holds no marker, the first marker is the one appended after the two line feeds |
| Enrichment.MarkerRoundTrip | services.py:110-113 | when the page text holds no marker, extraction gives back exactly the record, and the text left is the page text and the two line feeds |
| Enrichment.MarkerInPageText | services.py:324-327 | when the page text holds a marker itself, the record does not come back |
| Enrichment.MarkerRecoveredIff | services.py:324-331 | the record comes back exactly when the page text holds no marker |
| Enrichment.NoRecordRoundTrip | services.py:110-111 | without a record and without a marker in the page text, nothing is appended and extraction finds no record |
| Store.IndexOfRow | services.py:116-119 | the filter with `.first()` finds the first row with the dialog and the website, and there is none before it |
| Store.LatestOf | services.py:142-145 | the lookup returns a row of the dialog whose `created_at` is not earlier than any other of its rows, and returns none exactly when the dialog has no row |
| Store.Upsert | services.py:115-135 | a row for the key is replaced in place, otherwise one row is appended; the saved row is in the result, and every other row stays where it was |
| Store.UpsertShape | services.py:115-135 | with a row for the key, the table keeps its size; without one, it gains exactly one row; rows with other keys stay where they are; the only row with the key is the new one |
| Store.UpsertKeepsInvariant | services.py:115-135 | a save at a later time keeps keys unique, times distinct, and all times up to now |
| Store.LatestAfterUpsert | services.py:115-145 | after a save, the latest row of the dialog is the row just saved |
| Store.UpsertOtherDialog | services.py:115-145 | a save for one dialog does not change the latest row of another dialog |
| Store.UpsertTwice | services.py:115-135 | saving the same dialog and website twice leaves one row for them, which holds the second content and time |
| Store.ConversationStore.Save | services.py:96-138 | the clock moves on by one; the table is the upsert of the cleaned and enriched page text at that time; the invariant holds; the dialog's latest row is the one just saved |
| Store.ConversationStore.Latest | services.py:142-145 | the row of the dialog with the latest `created_at`, or none exactly when the dialog has no row |

## Left out

- `fetch_webpage_content` and `search_with_yandex` make network calls. The fetched page text and the dumped company record are parameters of `Store.ConversationStore.Save`.
- The HTML parse and the `script` and `style` removal of `clean_html_content` belong to BeautifulSoup. `Cleaner.Collapse` starts from the text the parser extracted. Its early return for empty HTML gives the empty text, which is also what `Collapse("")` gives.
- `json.loads` and `json.dumps` are not modelled. `Enrichment.ReadStored` takes "the text parses" as a parameter. The record is the text `json.dumps` made, and the model assumes only that it starts with `{` and ends with `}`.
- `generate_ai_description`, `generate_ai_question_answer` and `generate_openai_response` are modelled only up to the extraction prelude and the company name. The prompt text and the language-model call are out of scope.
- main.py, telegram_client.py, the webhook scripts, config.py and create_db.py are HTTP, process and configuration glue. main.py imports functions that services.py does not define.
- database.py is not part of this model. It defines `ConferenceBot`, not the `UrlChat` that services.py imports, so the table is modelled in memory from the queries in services.py. The session, commits and transactions are not modelled.
- Store.Upsert: the insert at services.py:129-133 sets no `created_at`. The model assumes the table stamps a new row with the current time as a column default. `UrlChat`'s schema is not part of this model.
- Store.ConversationStore.Save: `datetime.utcnow()` is a counter that every save moves forward by one. Real clocks can repeat or go backwards, and the model does not capture that.
- Store.LatestOf: when two rows of a dialog have the same `created_at`, SQL leaves the order open; the model returns the earlier row in the table. The invariant of `ConversationStore` keeps times distinct, so this does not arise in the store.
- Classifier.IsStartCommand: `str.lower()` is modelled on ASCII letters only. No other character lower-cases to a character of `/start`, so the test is exact. The remainder after `/start` is sliced from the original text, as the code does, and its length is unaffected.
- Logging, `print` and `traceback` are left out.
- The `async` functions are modelled as ordinary functions. Their steps do not interleave with other tasks on the shared data in the modelled code.

## Findings

| source | as written | input that shows it | evidently intended | confidence | as-written member | corrected member |
|---|---|---|---|---|---|---|
| services.py:40-44 | the remainder is sliced as `message_text[len(domain_part):]`, from the start of the text, while `domain_part` comes from `split()`, which skips leading whitespace | `" wikilect_com"` (any `" " + label + "_" + tld`): the remainder is `"m"`, so the message becomes the site `https://wikilect.com` with the question `"m"` | the remainder starts after the first word, so the message is the site `https://wikilect.com` with no question | high (not executed) | Classifier.MisalignedAsWritten | Classifier.MisalignedRepaired |
