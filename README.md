# chatscroll core in Dafny

This project models and proves properties of the core of chatscroll. chatscroll reads a WhatsApp chat export into timestamped message records. It then cuts the records into overlapping windows of rendered lines for retrieval, and it validates the splitter and retriever sections of its configuration.

The model covers three source files:

- **`chatscroll/parser.py`.**
  - `parse_timestamp` tries the three `strptime` formats in order. `strptime` is modelled the way CPython's `_strptime` works:
    - each directive becomes a regular expression with ordered alternatives, and whitespace becomes `\s+`;
    - matching backtracks, and must end at the end of the text;
    - the fields must form a real calendar date;
    - the `%y` pivot maps 00-68 to 20xx and 69-99 to 19xx.
  - `ChatParser` is a class holding the stream, the app, `chat` and `users`.
  - `parse_chat` reads every line of the stream and runs a loop that collects records and users. It then sorts the users. Both the loop and the sort are ordinary methods proved against specification functions.
- **`chatscroll/rag.py`.**
  - `ChatSplitter` is a class with the three settings as constants.
  - `split_messages` is a `while` loop over a window start `i`. Python's slice semantics are written out explicitly.
  - `truncate_message` and the line rendering are functions.
  - `Retriever` keeps its passages and chunks them with the default splitter.
  - `retrieve` takes the first `k` entries of the backend's ranked list and joins them with blank lines.
- **`config/loader.py`.** The `SplitterConfig` and `RetrieverConfig` validators are pure functions. A section's fields are optional; a missing field takes its default. Validation returns the section unchanged or the list of errors.

Modules:

- `Wrappers`: Option and Result.
- `Text`: the Python `str` operations used, namely `isspace`, `strip`, `find`, `split(sep, 1)`, `join`, and `int()` of digits.
- `Time`: calendar validity and `strftime('%Y-%m-%d %H:%M')`.
- `Timestamp`: the `strptime` model.
- `Sorting`: Python string order and `sorted` of a set.
- `ChatLog`: the parser.
- `Rag`: the splitter and the retriever front end.
- `Config`: the validators.

`parse_chat` (chatscroll/parser.py:67-77) never checks that the user is non-empty. `ChatLog.EmptyUserKept` proves that a line with nothing before the colon is kept, with an empty user.

## Model

| member | source | states |
|---|---|---|
| Timestamp.CompiledFormat | chatscroll/parser.py:9-13 | each of the three formats compiles to its day/month/year layout with `.` or `/` and `%Y` or `%y`, then a comma, whitespace and `%H:%M` |
| Timestamp.Strptime | chatscroll/parser.py:18 | a successful `strptime` always yields a valid calendar time |
| Timestamp.ParseTimestamp | chatscroll/parser.py:15-21 | success yields a valid time; failure raises exactly `Unrecognized timestamp format: <text>`; nothing in between |
| Timestamp.FirstParseNone | chatscroll/parser.py:16-21 | the first-match search fails if and only if every format fails |
| Timestamp.FirstParseFirst | chatscroll/parser.py:16-20 | the search returns the first format's result that succeeds, ignoring later formats |
| Timestamp.ParseIgnoresSurroundingSpace | chatscroll/parser.py:18 | whitespace around the text never changes whether or what `parse_timestamp` returns |
| Timestamp.StrptimeStamp | chatscroll/parser.py:16-18 | a rendered stamp is accepted by exactly the format whose separator and year width it has, and read back through the `%y` pivot |
| Timestamp.ParseStamp | chatscroll/parser.py:15-21 | the complete outcome of `parse_timestamp` on any rendered stamp: the pivoted time when its layout is one of the three and the date exists, the error otherwise |
| Timestamp.FourDigitYearRoundTrip | chatscroll/parser.py:10-11 | a valid time written with `.` or `/` and a four-digit year parses back to itself |
| Timestamp.TwoDigitYearRoundTrip | chatscroll/parser.py:12 | a valid time written with a two-digit year parses back to itself if and only if its year is 1969-2068 |
| Timestamp.PivotExact | chatscroll/parser.py:12 | the `%y` pivot recovers a year from its last two digits exactly for 1969-2068 |
| Timestamp.DottedTwoDigitYearRejected | chatscroll/parser.py:9-13 | no format reads a dotted date with a two-digit year |
| Timestamp.YearTooShort | chatscroll/parser.py:10-11 | `%Y` does not match when any of its four places holds a non-digit or lies past the end of the text |
| Timestamp.YearTooLong | chatscroll/parser.py:12 | `%y` followed by a non-digit item does not match a third digit |
| Timestamp.ParseExampleShortYear | chatscroll/parser.py:12 | `01/02/20, 10:00` is 1 February 2020, 10:00 |
| Timestamp.ParseExampleUnpadded | chatscroll/parser.py:10 | unpadded `5.3.2021, 7:08` is 5 March 2021, 07:08 |
| Timestamp.ParseExampleImpossibleDate | chatscroll/parser.py:11 | `31/02/2020, 10:00` raises |
| Time.DaysInMonth | chatscroll/parser.py:18 | month lengths are 28-31, and 29 exactly for February of a leap year |
| Time.FormatMinute | chatscroll/rag.py:37 | `strftime('%Y-%m-%d %H:%M')` is 16 characters |
| Time.FormatMinuteRoundTrip | chatscroll/rag.py:37 | the rendering of a valid time reads back as that time |
| Time.FormatMinuteInjective | chatscroll/rag.py:37 | distinct valid times render differently |
| Text.Strip | chatscroll/parser.py:59 | `strip` leaves no whitespace at either end and never lengthens |
| Text.StripIdempotent | chatscroll/parser.py:59 | stripping twice is stripping once |
| Text.SplitOnce | chatscroll/parser.py:63 | `split(sep, 1)` unpacks into two parts if and only if `sep` occurs, and cuts at its first occurrence |
| Text.SplitJoin | chatscroll/rag.py:40 | splitting a `join` at the separator gives back the parts when none holds it |
| ChatLog.SplitLines | chatscroll/parser.py:57 | `readlines` gives lines with a `\n` only at their end, and every line but the last ends in one |
| ChatLog.SplitLinesConcat | chatscroll/parser.py:57 | the lines put back together are the text |
| ChatLog.TextStream.ReadLines | chatscroll/parser.py:57 | reads the lines from the current position and leaves the stream at its end |
| ChatLog.TextStream.constructor | app.py:26 | `StringIO(text)`: the stream holds the text and stands at its start |
| ChatLog.TagLength | chatscroll/parser.py:70 | measures the shortest `<[^>]+>` match at the start of the text, or reports that none exists |
| ChatLog.RemoveTagsNoTags | chatscroll/parser.py:70 | `re.sub(r'<[^>]+>', '')` leaves no match of the pattern |
| ChatLog.RemoveTagsIdempotent | chatscroll/parser.py:70 | removing markup twice is removing it once |
| ChatLog.RemoveTagsKeeps | chatscroll/parser.py:70 | removing markup introduces no character |
| ChatLog.RemoveTags | chatscroll/parser.py:70 | removing markup never lengthens the text |
| ChatLog.CleanMessage | chatscroll/parser.py:70 | the cleaned text is stripped and free of markup |
| ChatLog.ParseLine | chatscroll/parser.py:59-82 | a kept line gives a valid time, a non-empty, stripped, markup-free message, and a stripped user without `:` |
| ChatLog.UserHasNoColon | chatscroll/parser.py:68-69 | the user is cut at the first `:` and holds none |
| ChatLog.LineDropped | chatscroll/parser.py:58-68 | a line yields nothing when it lacks ` - `, when its text before the first ` - ` is no timestamp, or when no `:` follows |
| ChatLog.ParseExportLine | chatscroll/parser.py:59-82 | a line `<stamp> - <user>: <message>` with any trailing whitespace yields exactly the record of its stamp's time, its user and its message |
| ChatLog.ParseRenderedLine | chatscroll/parser.py:59-82 | the same for every rendered stamp that `parse_timestamp` accepts |
| ChatLog.MarkupOnlyDropped | chatscroll/parser.py:70-74 | a line whose text is only a markup tag, such as `<Media omitted>`, is skipped |
| ChatLog.EmptyUserKept | chatscroll/parser.py:68-77 | nothing before the colon still gives a record, with an empty user |
| ChatLog.Collect | chatscroll/parser.py:57-82 | each line gives at most one record, so there are never more records than lines |
| ChatLog.CollectAppend | chatscroll/parser.py:58-82 | records follow line order: the records of two blocks of lines are those of the first block, then those of the second |
| ChatLog.ParsedRecords | chatscroll/parser.py:59-82 | every record read has a valid time, a clean non-empty message and a clean user |
| ChatLog.ParsedUnbroken | chatscroll/parser.py:57-70 | no record read from an export holds a line break |
| ChatLog.CollectLines | chatscroll/parser.py:54-84 | the loop yields exactly the records line by line and the set of their users |
| ChatLog.ChatParser.constructor | chatscroll/parser.py:31-44 | keeps the stream and app, reads the stream to its end, and holds the records of its lines and their users sorted |
| ChatLog.ChatParser.ParseChat | chatscroll/parser.py:46-86 | appends the records of the unread lines to `chat`, and sets `users` to their distinct users in ascending order |
| ChatLog.ParseTwice | chatscroll/parser.py:40-86 | a second `parse_chat` after construction keeps the records and leaves `users` empty, since the stream is already at its end |
| Sorting.BelowTotal | chatscroll/parser.py:86 | Python's string order is total |
| Sorting.Insert | chatscroll/parser.py:86 | inserting keeps the list ascending without repeats, adding exactly the new string |
| Sorting.SortedList | chatscroll/parser.py:86 | `sorted(set)` returns the set's strings in strictly ascending order |
| Sorting.SortedUnique | chatscroll/parser.py:86 | there is only one such list, so the result is the one `sorted` returns |
| Rag.Slice | chatscroll/rag.py:35 | Python's `s[i:j]` with negative and out-of-range bounds is never longer than `s` |
| Rag.Truncate | chatscroll/rag.py:48-51 | a message within the limit is returned as is; a longer one becomes its first `max` characters and `...`, at most `max + 3` long |
| Rag.TruncateIdempotent | chatscroll/rag.py:48-51 | truncating twice is truncating once |
| Rag.TruncateZero | chatscroll/rag.py:48-51 | with a limit of 0 every non-empty message becomes `...` |
| Rag.TruncateExample | tests/test_rag.py:17-27 | a hundred `X`s cut at 50 are fifty `X`s and `...` |
| Rag.LineTime | chatscroll/rag.py:36-38 | the first 16 characters of a rendered line read back as the message's time |
| Rag.Line | chatscroll/rag.py:37 | a line is the 16-character time, ` - `, the user, `: ` and the truncated message: 21 characters more than user and text |
| Rag.LineHasNoNewline | chatscroll/rag.py:36-38 | a line holds a break only where its user or its message does |
| Rag.Rendered | chatscroll/rag.py:35-39 | one line per message of the window, in order |
| Rag.ChunkLines | chatscroll/rag.py:40 | a chunk of messages without breaks splits at `\n` into exactly its lines |
| Rag.Chunk | chatscroll/rag.py:35-40 | an empty window gives the empty text, and a one-message window gives that message's line |
| Rag.WindowsShape | chatscroll/rag.py:33-44 | no windows for no messages; otherwise `ceil(m / step)` windows, window `j` being `messages[j*step : j*step + chunk_size]` |
| Rag.Windows | chatscroll/rag.py:33-44 | the window starts of the loop give no window exactly when there are no messages |
| Rag.WindowsHundred | tests/test_rag.py:9-11 | 100 messages with chunk size 3 and overlap 1 give 50 windows |
| Rag.WindowsCover | chatscroll/rag.py:35-44 | every message lies in the window `k / step`, at offset `k - j*step` |
| Rag.WindowsOverlap | chatscroll/rag.py:35-44 | consecutive full windows share exactly `overlap` messages |
| Rag.StartsIncrease | chatscroll/rag.py:35-44 | window `j` is the slice from `j*step` and window `j + 1` the slice from `j*step + step`, which is still inside the list |
| Rag.WindowInside | chatscroll/rag.py:33-35 | every window starts inside the list and is non-empty |
| Rag.Chunks | chatscroll/rag.py:35-42 | one chunk per window, each the `\n`-join of its rendered lines |
| Rag.ChatSplitter.constructor | chatscroll/rag.py:23-26 | stores the three settings, with defaults 10, 5 and 300 |
| Rag.ChatSplitter.SplitMessages | chatscroll/rag.py:28-46 | the loop returns exactly the chunks of the windows from every `chunk_size - overlap` start |
| Rag.Split | chatscroll/rag.py:28-46 | one chunk per window, and no chunk exactly when there are no messages |
| Rag.SplitShape | chatscroll/rag.py:33-44 | for a non-empty list, `ceil(m / step)` chunks, chunk `j` made from `messages[j*step : j*step + chunk_size]` |
| Rag.SplitChunkLines | chatscroll/rag.py:35-40 | every chunk of break-free records splits at `\n` into the lines of its window |
| Rag.ParsedChunkLines | chatscroll/rag.py:35-40 | so every chunk made from a parsed export reads back as the lines of its window |
| Rag.SingleWindow | chatscroll/rag.py:33-44 | one message split one at a time gives one chunk: its own line |
| Rag.SplitLongMessageExample | tests/test_rag.py:17-27 | Alice's hundred `X`s at 2020-01-01 00:00, cut at 50, give the chunk `2020-01-01 00:00 - Alice: ` followed by fifty `X`s and `...` |
| Rag.Retriever.constructor | chatscroll/rag.py:54-57 | keeps the passages and chunks them with the default splitter |
| Rag.Retriever.SplitPassages | chatscroll/rag.py:59-62 | the chunks are those of `ChatSplitter()`: 10, 5 and 300 |
| Rag.DefaultChunks | chatscroll/rag.py:23 | the retriever's chunks are `ceil(m / 5)` windows of 10 messages at every fifth message |
| Rag.TopK | chatscroll/rag.py:77 | `docs[:k]` is the first `min(k, n)` ranked documents |
| Rag.RetrieveMore | chatscroll/rag.py:76-78 | one more `k` appends the next document after a blank line |
| Rag.RetrieveEnds | chatscroll/rag.py:113-115 | `k = 0` gives the empty text, and `k = 1` gives the best document alone |
| Rag.Retrieve | chatscroll/rag.py:76-78 | `k = 0` or an empty ranked list gives the empty text; for `k >= 1` the best document starts the text |
| Rag.RetrieveDefault | chatscroll/rag.py:76-78 | with the default `k = 3`, the first three documents joined by blank lines, or all of them when there are fewer |
| Config.AtLeast | config/loader.py:14-16 | a `ge` bound reports exactly one error when a given value is below it, and none otherwise or when the field is missing |
| Config.AtMost | config/loader.py:16 | the same for an `le` bound |
| Config.ValidateSplitter | config/loader.py:13-24 | accepted if and only if all bounds hold and the overlap is below the chunk size; accepted sections are unchanged; the overlap check runs only after the field bounds pass |
| Config.SplitterBoundsReported | config/loader.py:14-16 | each violated bound rejects the section and names its field |
| Config.DefaultsAccepted | config/loader.py:14-16 | an empty section is accepted as 10, 5 and 300, the splitter's own defaults |
| Config.AcceptedSplitCount | config/loader.py:13-24 | an accepted section gives a positive step, so `split_messages` ends on every list with `ceil(m / step)` chunks |
| Config.AcceptedSplitCovers | config/loader.py:13-24 | under an accepted section every message is a line of some chunk |
| Config.ValidateRetriever | config/loader.py:27-30 | accepted if and only if the method is `bm25` or `FAISS` and `1 <= k <= 50`; accepted sections are unchanged |
| Config.AcceptedRetriever | config/loader.py:28-29 | an accepted section names one of the two backends and asks for at most 50 chunks |
| Config.RetrieverDefaults | config/loader.py:28-30 | an empty section is BM25 with `k = 3` and the MiniLM embeddings |

## Left out

- The Streamlit pages and widgets, plots, word clouds, statistics and prompt text: all of it is UI and pandas code.
- `chatscroll/chat_parser.py`: an older parser that nothing uses. Its constructor fails on its own setter-less property.
- The BM25 and FAISS ranking, embeddings, the LLM, the md5-named index cache and its files. Both backends appear only as the ranked list of chunk texts they return. LangChain's `Document` is its `page_content` string.
- Rag.RetrieveEnds, Rag.RetrieveMore: BM25's `invoke` returns at most 4 documents by default, and `similarity_search` applies `k` itself. What these backends return is not modelled, so `retrieve` is stated against whatever list comes back.
- `load_config`: the file check, the YAML load and the cache. `ModelConfig.temperature` is a float, and `AppConfig` only nests the sections.
- Config.ValidateSplitter: pydantic's coercion of numeric strings, floats and booleans into `int` is not modelled; fields are already integers. The error wording is not modelled either, only the kind and the field of each error.
- Config.ValidateRetriever: `embeddings_model` accepts any string, so it is only defaulted.
- Timestamp.Strptime: `\d` in CPython's patterns also matches non-ASCII digits; only `0`-`9` are modelled.
- Time.FormatMinute: years below 1000 are padded to four digits, which `strftime` does only on some platforms.
- Multi-line messages are not reassembled. The parser works line by line, and continuation lines are dropped, as in the source.
- `TextStream` models only what `parse_chat` uses of `StringIO`: `readlines` from the current position.
- The keyword `chunk_overlap=` that tests/test_rag.py passes to `ChatSplitter` is read as `overlap`, the parameter's real name. As written, that call raises `TypeError`.
- `ChatSplitter` validates nothing. `SplitMessages` therefore requires what its loop needs to end: a positive `chunk_size - overlap`, unless there are no messages. Python's loop never ends otherwise.
