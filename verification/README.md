# CollegeBot question matcher, modelled in Dafny

CollegeBot is a small Flask server that answers questions about a college.
At start-up, `load_csv_data` reads every CSV file in a `data` folder. From
each file whose header has a `question` and an `answer` column, it builds one
global dictionary `qa_data` that maps a normalised question (stripped and
lower-cased) to its stripped answer. `POST /chat` normalises the message the
same way and rejects it with status 400 when it is empty. Otherwise it returns
the answer of the exact key if there is one. Failing that, it returns the
answer of the first key, in the dictionary's insertion order, that contains
the message or is contained in it. When nothing matches it returns a fixed
apology.

This project models that core and proves its ordering rules:

- an exact hit beats any substring hit;
- among substring hits, the first key in insertion order wins;
- overwriting a key keeps its position;
- every loaded key is found again by any casing or padding of itself.

Modules, one per concern:

- `text.dfy` (`Text`): Python's `str.strip()`, `str.lower()` and `a in b` on
  strings, with their properties. White space is exactly what Python's
  `str.isspace()` accepts.
- `ordered_table.dfy` (`OrderedTable`): the value of an insertion-ordered
  dictionary (`keys` in iteration order, `vals` the mapping) and `d[k] = v`.
- `corpus.dfy` (`Corpus`): header column lookup, what a data row contributes,
  and the pure specification of a full load, with lemmas about it.
- `matcher.dfy` (`Matcher`): the reply to a message as a function, the HTTP
  status and text for a reply, and lemmas about both.
- `app.dfy` (`App`): the class `Store`, which holds `qa_data` as fields. Its
  `Load` method holds the loader's loops and its `Chat` method the matcher's
  scan loop. Both are proved equal to the pure specifications.

`chat` has no stage after the substring scan: when no key hits, it goes
straight to the fallback reply, and there is no similarity matching
(app.py:70-74).

## Model

| member | source | states |
|---|---|---|
| Text.Lower | app.py:52 | lower-casing leaves no mapped capital, never turns white space into non-space or back, and leaves every other character alone |
| Text.ToLower | app.py:52 | the modelled `str.lower()` keeps the length and lower-cases each character by `Lower` |
| Text.Strip | app.py:52-53 | `str.strip()` never lengthens a string, and gives the empty string exactly when the input is all white space |
| Text.StripFramed | app.py:52-53 | `strip()` gives a result with no white space at either end, which sits inside the input with only white space before and after it |
| Text.StripLeftSuffix | app.py:52 | `lstrip` leaves the suffix of the input that starts at its first non-space character |
| Text.StripRightPrefix | app.py:52 | `rstrip` leaves the prefix of the input that ends at its last non-space character |
| Text.StripPadding | app.py:61 | stripping white-space padding off a trimmed string gives back exactly that string |
| Text.StripTrimmed | app.py:53 | `strip()` leaves a string with no white space at its ends unchanged (strip is idempotent) |
| Text.Normalize | app.py:61 | `strip().lower()` is empty exactly when `strip()` is, and leaves no upper-case letter |
| Text.NormalizeTrimmed | app.py:52 | a normalised question or message has no white space at either end |
| Text.NormalizeIdempotent | app.py:61 | normalising twice is the same as normalising once |
| Text.NormalizeHeaderCell | app.py:42 | a header cell normalised by `lower().strip()` has no upper-case letter |
| Text.LowerStripCommute | app.py:42 | the header's `lower().strip()` gives the same text as the rows' `strip().lower()` |
| Text.Contains | app.py:71 | the executable substring test holds exactly when the needle occurs contiguously in the haystack |
| OrderedTable.Insert | app.py:55 | `d[k] = v` keeps the dictionary valid, stores `v` under `k`, leaves every other key and value alone, appends a new key at the end of the iteration order and keeps an existing key's position |
| Corpus.IndexOf | app.py:44-45 | `list.index` gives the first position holding the value, and fails exactly when the value is absent |
| Corpus.NormalizeHeader | app.py:42 | the header is normalised cell by cell with `lower().strip()` |
| Corpus.HeaderColumns | app.py:42-48 | a file is skipped exactly when no header cell normalises to `question` or none to `answer`; otherwise the first such cells are the columns used |
| Corpus.RowEntry | app.py:51-54 | a row contributes exactly when it reaches both columns and both stripped fields are non-empty; it contributes the normalised question and the stripped answer, which are a valid key and answer |
| Corpus.KeyIsNormal | app.py:66 | a stored key is its own normal form |
| Corpus.AddRow | app.py:51-55 | writing one row keeps the dictionary valid; a row too short for either column or with an empty stripped field leaves it unchanged; a contributing row is `d[question] = answer` with its normalised question and stripped answer |
| Corpus.LoadRows | app.py:50-55 | writing a file's rows keeps the dictionary valid |
| Corpus.LoadFile | app.py:38-55 | reading one file keeps the dictionary valid; an empty (undecodable) file, or one whose normalised header lacks `question` or `answer`, leaves it unchanged; otherwise its data rows after the header are written in order using the first `question` and `answer` columns |
| Corpus.LoadFiles | app.py:13-55 | a full load starting from `{}` yields a valid ordered dictionary |
| Corpus.LoadRowsWellFormed | app.py:50-55 | writing rows keeps every key non-empty, trimmed and lower-case and every answer non-empty and trimmed |
| Corpus.LoadFilesWellFormed | app.py:13-55 | whatever the files hold, every loaded key is a non-empty normalised question and every answer a non-empty stripped one |
| Corpus.LoadRowsDomain | app.py:50-55 | after the rows are written, a key is stored exactly when it was stored before or some row contributes it |
| Corpus.SomeRowSplit | app.py:50 | some row of a list contributes a key exactly when some earlier row does or the last one does |
| Corpus.LoadRowsKeepsOrder | app.py:55 | writing rows never reorders the keys already stored: the old iteration order is a prefix of the new one, even when a key is overwritten |
| Corpus.LastRowWins | app.py:55 | the last row that contributes a question decides the answer stored for it |
| Corpus.LoadRowsFrame | app.py:55 | a stored key that no row writes keeps its answer after the rows are written |
| Corpus.LoadFileFrame | app.py:38-55 | a loaded key that the next file does not write keeps its answer after that file is read |
| Corpus.LoadFilesDomain | app.py:13-55 | after a full load, a key is stored exactly when some data row of some file with both columns contributes it |
| Corpus.LaterFileWins | app.py:38-55 | a later file overrides earlier ones: the last contributing row of the last file read decides a question's answer after the full load, whatever earlier files stored |
| Matcher.Hit | app.py:71 | `key in query or query in key` holds exactly when one string occurs contiguously in the other |
| Matcher.FirstHit | app.py:70-72 | the scan returns the first position whose key contains the message or is contained in it, with no such key before it, or reports that there is none |
| Matcher.Respond | app.py:61-74 | an empty normalised message is rejected; an exact key gives its answer; otherwise the first key in order that contains or is contained in the message gives its answer; only when no key does is there no answer; every answer is a stored value |
| Matcher.Render | app.py:61-74 | an empty message gets status 400 with "Please ask a question."; an answer gets 200 with that answer; no answer gets 200 with "Sorry, I don't have an answer for that yet." |
| Matcher.BlankMessageRejected | app.py:61-63 | a message made only of white space gets status 400 and "Please ask a question." whatever is loaded |
| Matcher.StoredKeyAnswered | app.py:61-67 | any casing and padding of a stored key gets that key's answer, whatever earlier keys would match it as substrings |
| Matcher.AnswersAreStored | app.py:66-72 | after a load, every answer given is non-empty and trimmed |
| Matcher.LoadedQuestionAnswered | app.py:50-67 | after a load, asking any loaded question in any casing and padding gets the answer stored for it |
| Matcher.PunctuatedQuestionFallsToSubstring | app.py:61-72 | with the keys "what is the deadline" and "how do i apply", the message "What Is The Deadline?" normalises to "what is the deadline?" (the `?` is kept), which is not a stored key; the first key is the first substring hit, and the reply is "May 1" |
| App.Store.constructor | app.py:9 | the dictionary starts empty |
| App.Store.Put | app.py:55 | one assignment `qa_data[question] = answer` changes the dictionary exactly as `OrderedTable.Insert` says |
| App.Store.Load | app.py:11-55 | reloading discards the old contents; the dictionary afterwards is the one `Corpus.LoadFiles` gives for the files, and is well formed |
| App.Store.ReadRows | app.py:50-55 | the loop over a file's data rows leaves the dictionary that `Corpus.LoadRows` gives |
| App.Store.ReadRow | app.py:51-55 | one pass of the row loop leaves the dictionary that `Corpus.AddRow` gives |
| App.Store.Chat | app.py:60-74 | the handler's guards and early-return scan give exactly the reply `Matcher.Respond` specifies for the current dictionary |

## Left out

- HTTP plumbing is not modelled: Flask routing, CORS, `jsonify`, the `/` and `/ping` routes and `app.run` (app.py:1-7, 59-60, 76-85). `Matcher.Render` gives the status and the `response` text.
- `request.json.get("message", "")` is not modelled. `App.Store.Chat` receives the message string; a request without `message` arrives as `""`. A body that is not JSON, or a `message` that is not a string, makes the source raise; that path is not modelled.
- File-system access and decoding are not modelled: the `data` folder check, `os.listdir`, the `.csv` name filter, `open`, the three-encoding retry loop and `csv.reader` (app.py:14-37). `App.Store.Load` receives each listed CSV file as its decoded rows, in listing order. A file that no encoding could decode arrives as `[]`, just as `rows` stays `[]` in the source. A missing `data` folder behaves like an empty file list.
- The `print` logging is not modelled. It has no effect on the dictionary or the replies.
- Text.Lower: maps only ASCII `A`-`Z` and the Latin-1 capitals U+00C0-U+00DE (except U+00D7) to lower case. Python's `str.lower()` covers all of Unicode, including mappings that change a string's length.
- Concurrent requests during a reload are not modelled. The server runs `load_csv_data` once, at import time, before it serves requests.
