# message-book, the LaTeX export core in Dafny

message-book turns one iMessage conversation into the sources of a LaTeX
book. This project models the part of it that decides what ends up in
those sources:

- **Message rendering** (`src/render.rs`):
  - `latex_escape`: the fixed chain of `.replace` calls, the `\url{…}` wrapping of links and the `{\emojifont …}` wrapping of emoji runs;
  - `LatexMessage::render`: the block of one message;
  - `render_message`: folds the body segments into a `LatexMessage`.
- **Selection and chaptering** (`src/main.rs`, `iter_messages`):
  - chat lookup and the message query;
  - the reaction/announcement/SharePlay filter;
  - the loop that opens one chapter file per run of messages of a month and appends each message's block to it.
- **The root document** (`src/main.rs`, `iter_messages`): `main.tex` from the template, with title, copyright and dedication filled in, the optional preface, one `\include` per chapter and `\end{document}`.

## Files

| file | module | what it holds |
|---|---|---|
| `wrappers.dfy` | `Wrappers` | `Option` |
| `strings.dfy` | `Strings` | Rust's `str::replace` and `str::find`, decimal and zero-padded numerals |
| `messages.dfy` | `Messages` | message, segment, chat and month-key values; date order |
| `escape.dfy` | `Escape` | `latex_escape` |
| `render.dfy` | `Render` | `LatexMessage`, `render`, `render_message`, parsers for the rendered shapes |
| `selection.dfy` | `Selection` | chat lookup, message query, message filter |
| `chapters.dfy` | `Chapters` | chapter names, headings and texts, and the collapsing of runs |
| `manuscript.dfy` | `Manuscript` | template filling, preface insertion, include lines |
| `book.dfy` | `Exporter` | the `Book` class (output files, chapter list, open chapter) and `IterMessages` |

### How the model is organised

- **Escaping.**
  - The replacement chain is `ApplySteps` over the sixteen `Step`s of `LatexSteps`. Each step is `Strings.Replace` with a one-character pattern.
  - `ChainIsOnePass` proves that a chain in which no replacement text contains a later step's pattern equals one left-to-right pass.
  - `LatexStepsChained` proves that the source's chain is such a chain. `EscapeCharsOnePass` then identifies the chain with the per-character table `EscapeChar`.
  - The link and emoji passes are left-to-right scans (`WrapUrls`, `WrapEmoji`).
    - Each is proved against an independent description: a decomposition of the text into plain and marked pieces (`UrlSplit`, `EmojiSplit`).
    - `SplitUrls` and `SplitEmoji` show that such a decomposition always exists.
- **Rendering.**
  - `Render` and `RenderMessage` are methods that follow the source's `push_str` and `for` loop.
  - They are proved equal to the functions `Block` and `ToLatex`.
  - `ParseBlock` reads a block back into its date, spacing flag, side and content; `ParseBadge` reads an attachment badge back into its count. The content itself is not parsed further: how escaped text, `\enskip` and badge make it up is stated by the definition of `Content`.
- **Exporting.**
  - `Book` is a class with the files written so far (a map from file name to contents), the chapter list and the open chapter.
  - `EnterChapter`, `AppendBlock`, `ProcessMessage`, `WriteChapters` and `WriteMainTex` update it in place.
  - `WriteChapters` is the loop of `iter_messages`. Its invariant `Progress` is proved to carry over one message by `LoopStep`.
  - Its result is stated against the reference functions `Collapse`, `ChapterNames` and `ChapterText`.
  - `ChaptersPartition` proves that, for messages in date order, the chapters share out the messages' blocks: gathered chapter by chapter, they are every block once, in order.
- **The root document.**
  - `FillTemplate` is three `Replace` calls. `FillTemplateSplits` states their effect on any template through `SplitAtPattern`, the pieces of a text between the occurrences of a pattern.
  - `ChapterIncludesRoundTrip` proves that the include lines of the chapter list read back as that list.

## Model

| member | source | states |
|---|---|---|
| Escape.ChainIsOnePass | src/render.rs:14-35 | a chain of one-character `replace` calls in which no replacement holds a later pattern equals one left-to-right pass writing, for each character, the replacement of the first step whose pattern it is |
| Escape.LatexStepsChained | src/render.rs:14-35 | the sixteen replacements of `latex_escape` form such a chain: backslash is escaped before any step that writes a backslash, and no replacement text holds a character that a later step rewrites |
| Escape.EscapeCharsOnePass | src/render.rs:14-35 | the replacement chain equals the per-character table: typographic quotes and the ellipsis become ASCII, control characters get their escapes, newline becomes `\newline` plus newline, U+FE0F is dropped, everything else is kept |
| Escape.EscapeCharsSingle | src/render.rs:16-35 | one character goes through the whole chain exactly as the table says |
| Escape.EscapeCharsAppend | src/render.rs:14-35 | the chain escapes a concatenation part by part, so nothing is escaped twice across a boundary |
| Escape.ControlCharsEscaped | src/render.rs:21-30 | in the escaped text every `$ % & _ # { }` is preceded by a backslash |
| Escape.WrapUrlsMarksLinks | src/render.rs:37-40 | for any split of the text into plain pieces (where no `http://` or `https://` starts) and maximal links (a scheme followed by non-white-space up to white space or the end), the pass wraps exactly the links in `\url{…}` and keeps the rest |
| Escape.SplitUrls | src/render.rs:37-40 | every text has such a split |
| Escape.UrlRun | src/render.rs:37 | a match is at least the scheme plus one character, and its maximal run is itself a match |
| Escape.WrapEmojiMarksRuns | src/render.rs:45-49 | for any split into plain characters and maximal runs of pictographic characters, the pass wraps exactly each run in `{\emojifont …}` and keeps everything else |
| Escape.SplitEmoji | src/render.rs:45-49 | every text has such a split |
| Escape.LatexEscapeWithoutLinksOrEmoji | src/render.rs:10-52 | when the escaped text has no link and no pictographic character, `latex_escape` is the per-character table |
| Escape.LatexEscapePlainText | src/render.rs:10-52 | text without special characters, links or emoji comes out unchanged |
| Render.Render | src/render.rs:63-97 | the rendered block is the date marker line, the spacing line exactly when requested, then the left (own) or right message line around the escaped text, `\enskip` only between text and badge, and the badge only for a positive attachment count |
| Render.RenderMessage | src/render.rs:100-121 | the segment loop yields the block of the `LatexMessage` holding the last text segment and the number of attachment segments |
| Render.LastTextIsLast | src/render.rs:112-118 | the body text is `t` exactly when some segment is `Text(t)` and no later segment is a text |
| Render.LastTextNone | src/render.rs:103-118 | the body text stays absent exactly when no segment is a text |
| Render.AttachmentCountIsMultiplicity | src/render.rs:115 | the attachment count is the number of attachment segments |
| Render.BadgeRoundTrip | src/render.rs:69-81 | the badge reads back as its count, with `Attachment` singular exactly when the count is one |
| Render.MessageLineRoundTrip | src/render.rs:91-94 | the message line reads back as its side and its content |
| Render.LayoutRoundTrip | src/render.rs:83-96 | a block reads back as its date, its spacing flag, its side and its content |
| Render.BlockRoundTrip | src/render.rs:83-96 | the same for the block of any `LatexMessage` whose date holds no `}`, as no `%B %e, %Y` date does |
| Selection.ResolveChats | src/main.rs:169-174 | the chats kept are exactly those whose identifier equals the argument, each as often as in the table |
| Selection.ChatIds | src/main.rs:176 | the ids are the rowids of the kept chats, in order |
| Selection.SelectMessages | src/main.rs:182-215 | the query rows are exactly the rows whose chat id is one of the ids, each as often as in the table |
| Selection.SelectMessagesAppend | src/main.rs:189-195 | the selection works part by part, so the selected rows keep the order of the table, which stands for `ORDER BY m.date` |
| Selection.QueryMessages | src/main.rs:196-197 | the query returns a prefix of the selected rows of at most 100000 rows, all of them when fewer |
| Selection.FilterMessages | src/main.rs:224-226 | a message is kept exactly when it is not a reaction, an announcement or SharePlay, each as often as it came |
| Selection.FilterMessagesAppend | src/main.rs:224-226 | the filter works part by part, so kept messages stay in their relative order |
| Selection.FilterMessagesIdempotent | src/main.rs:224-226 | filtering twice is filtering once |
| Selection.BookMessagesInOrder | src/main.rs:194-226 | rows in date order give printed messages in date order |
| Chapters.ChapterNameRoundTrip | src/main.rs:245 | `ch-%Y-%m` reads back as its year and month |
| Chapters.ChapterFileInjective | src/main.rs:245-246 | two months have the same chapter name, and the same file, exactly when they are the same month |
| Chapters.ChapterNameNoBrace | src/main.rs:245 | a chapter name holds no `}` |
| Chapters.CollapseNoRepeats | src/main.rs:249-268 | no two neighbouring entries of the collapsed list are equal |
| Chapters.ChaptersDistinct | src/main.rs:249-268 | for messages in date order, every chapter is listed once |
| Chapters.RunsUpToCollapse | src/main.rs:249-268 | the chapter list built item by item is the collapsed list of the prefix |
| Chapters.GatherChapterBlocks | src/main.rs:275-289 | a month's blocks are exactly the contributions of the messages whose chapter name is that month's, in order |
| Chapters.ChaptersPartition | src/main.rs:237-290 | for messages in date order, the blocks gathered chapter by chapter, in the order the chapters are listed, are every message's contribution once and in order |
| Manuscript.FillTemplatePlaceholders | src/main.rs:305-313 | for a template holding each placeholder once, title, copyright and dedication are replaced by the configured values and the rest of the template is kept |
| Strings.ReplaceJoin | src/main.rs:305-313 | `replace` rewrites every occurrence: a text made of parts joined by the pattern, holding it only at the joints, comes out as the same parts joined by the replacement |
| Manuscript.FillTemplateEveryOccurrence | src/main.rs:305-313 | however often each placeholder occurs, every occurrence is replaced by its configured value and the text between occurrences is kept |
| Strings.ReplaceSplit | src/main.rs:305-313 | for any text, `replace` gives the pieces between the occurrences of the pattern joined by the replacement |
| Manuscript.FillTemplateSplits | src/main.rs:305-313 | for any template, every occurrence of each placeholder in turn is replaced by its value and the pieces between them are kept |
| Manuscript.InsertPreface | src/main.rs:314-320 | with a preface and a `\mainmatter`, the preface section is inserted right before the first `\mainmatter`; otherwise the text is unchanged |
| Manuscript.PrefaceDoublesMainMatter | src/main.rs:314-320 | after insertion `\mainmatter` stands both at the end of the preface section and right after it |
| Manuscript.IncludesAppend | src/main.rs:329-333 | one more chapter adds one more include line at the end |
| Manuscript.IncludesRoundTrip | src/main.rs:329-333 | the include lines read back as the chapter list |
| Exporter.ChapterIncludesRoundTrip | src/main.rs:329-333 | the include lines of the chapter list built from any messages read back as that list |
| Exporter.Book.EnterChapter | src/main.rs:248-270 | a month that is not the open chapter gets a new file holding its heading and is appended to the chapter list; the open month changes nothing |
| Exporter.Book.AppendBlock | src/main.rs:278-284 | the block is appended to the open chapter's file and nothing else changes |
| Exporter.Book.ProcessMessage | src/main.rs:241-290 | one message: its chapter is entered, and its block is appended only when its text could be generated |
| Exporter.Book.WriteChapters | src/main.rs:237-290 | after the loop the chapter list is the month sequence with runs collapsed, the files are exactly the chapter files, and each holds its heading followed by the blocks of its messages in order |
| Exporter.LoopStep | src/main.rs:241-290 | one message carries the loop invariant one message further |
| Exporter.ChaptersStep | src/main.rs:249-268 | the chapter list grows by the message's chapter exactly when the message starts a new run |
| Exporter.OpenChapter | src/main.rs:254-268 | a message that opens a chapter starts its month's text with the heading |
| Exporter.ContinueChapter | src/main.rs:275-284 | a message of the open month extends that month's text |
| Exporter.FirstOfMonth | src/main.rs:249-252 | in date order, a message that does not continue the open chapter is the first of its month |
| Exporter.Book.WriteMainTex | src/main.rs:293-345 | `main.tex` is the filled template with the preface, one include line per chapter in order, then `\end{document}` |
| Exporter.MainKeepsChapters | src/main.rs:322-333 | writing `main.tex` overwrites no chapter file |
| Exporter.IterMessages | src/main.rs:169-345 | the export writes `main.tex` and one file per chapter. Chapters are listed once each, in the order of their runs. Each file holds its month's heading and blocks. `main.tex` includes them in order |

## Left out

- A message without a date: `msg.date(...).expect(...)` in `iter_messages` and in `render_message` aborts the whole export. Every modelled message carries a month key and a date string, so that panic is not modelled.
- The database: the connection, the SQL text, `Chat::from_row` and `Message::from_row`. The chat table and the rows of the message query (one row per message and chat it is joined to) are inputs.
- `ORDER BY m.date` is the precondition `Chronological` on the rows.
- `is_reaction`, `is_announcement`, `is_shareplay`, `gen_text` and `body()` belong to the database library. Their outcomes are recorded in each `Message`; `generated` records whether `gen_text` succeeded.
- Dates and chrono:
  - a message's local month is its `ChapterKey`;
  - `%B %e, %Y` is an opaque date string per message;
  - `ch-%Y-%m` and `%B %Y` are written out for years 0 to 9999 only (`ValidKey`), the years chrono prints with four digits and no sign.
- The Unicode `Extended_Pictographic` property is the parameter `pict`. White space as the regex `\s` sees it is the Unicode White_Space list in `IsWhitespace`.
- The regex engine: both patterns are modelled as explicit left-to-right scans for leftmost, maximal matches.
- Files are entries of the map `Book.files`. Not modelled:
  - creating the output directory;
  - reading the template (it is a parameter);
  - copying the emoji font and the Makefile;
  - the `messages.json` snapshot;
  - the `File` handle kept in `current_output_info`, modelled as the file name of the open chapter;
  - panics on I/O errors.
- Command-line parsing, `get_db_location`, `load_config` and all console output (`println!`, `eprintln!`).
- Render.ToLatex: `attachment_count` is an `i32` in the source. The model counts with an unbounded integer, so it does not capture wrap-around past 2^31 - 1 attachments in one message.
- `insert_extra_space` is always false in `iter_messages`. `Render` still takes the flag and its `true` case is modelled, but the chapter texts are built with `false` only.
- Link titles are not fetched and spacing between messages from the same sender is not inserted. The code does neither, so the model follows the code.
- Exporter.IterMessages: its result states the contents of the files at the end of the export, not the order in which the writes happened.
