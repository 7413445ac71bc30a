# SmartNoteProcessor core in Dafny

This project models the deterministic core of SmartNoteProcessor. SmartNoteProcessor is a Flask application. It extracts topics from an uploaded document with a language model, writes one study note per topic, converts the notes to Markdown, LaTeX or HTML, cross-links them, and stores them in a database.

The language model, the files, the database and the web layer are all replaced by inputs:
- the texts the model returns, or the exception it raised;
- the pages and paragraphs a library read;
- the rows of the `topic` and `note` tables as sequences.

What is left is string processing and bookkeeping, with proofs about it:
- `FormatConverter.convert`: title handling, format dispatch and strip idempotence (`format_converter.dfy`).
- The line-by-line Markdown→LaTeX and Markdown→HTML scanners (`latex.dfy`, `html.dfy`, `inline.dfy`). Each is a `method` with a `while` loop over the lines. It is proved equal to a fold of a step function over the lines. Balance, pairing and per-line rules are proved about that fold.
- `add_hyperlinks` (`hyperlinks.dfy`). Python's `re.sub` is modelled on an escaped literal pattern, with its replacement-template parser and its lookaround guards.
- `SmartNotesOrchestrator.process_and_generate` (`orchestrator.dfy`, `index_page.dfy`, `store.dfy`):
  - the topic loop over an abstract note table;
  - the hyperlink pass that writes back changed rows;
  - the Markdown table-of-contents entry.
- Topic extraction, word-overlap relationships and granularity handling (`topic_extractor.dfy`, `gemini_client.dfy`).
- The retry/quota loop of the model client and topic-JSON parsing (`gemini_client.dfy`).
- Vision-response parsing and per-topic image aggregation (`image_analyzer.dfy`).
- Extension dispatch, PDF/DOCX text assembly and the short-answer fallback (`document_processor.dfy`).
- The route helpers of `app.py` (`app_helpers.dfy`):
  - `allowed_file`;
  - reconciliation of stored topics after a granularity change;
  - the choice of the next topic to generate;
  - the note upsert;
  - download file names;
  - the first-note choice of `load_document`.

Python dictionaries are `Dicts.Dict`: the keys in insertion order plus a map. Python strings are `string`, a sequence of Unicode characters. The Python `str` methods the code relies on are defined once, in `text.dfy`.

## Model

| member | source | states |
|---|---|---|
| Text.Find | SmartNoteProcessor/utils/format_converter.py:137-141 | `s.find(p)`: -1 exactly when `p` does not occur, otherwise the first position where it occurs |
| Text.FindChar | SmartNoteProcessor/utils/gemini_client.py:225 | `s.find(c)`: the first index holding `c` (no `c` before it), or -1 exactly when `c` is absent |
| Text.RFindChar | SmartNoteProcessor/utils/gemini_client.py:226 | `s.rfind(c)`: the last index holding `c` (no `c` after it), or -1 exactly when `c` is absent |
| Text.LStrip | SmartNoteProcessor/utils/format_converter.py:30 | `lstrip()` returns a suffix of `s` that does not start with whitespace, and everything it removed is whitespace |
| Text.RStrip | SmartNoteProcessor/utils/format_converter.py:30 | `rstrip()` returns a prefix of `s` that does not end with whitespace, and everything it removed is whitespace |
| Text.StripSpec | SmartNoteProcessor/utils/format_converter.py:30 | `strip()` leaves no whitespace at either end, and it is a window of `s` with only whitespace outside it |
| Text.StripIdempotent | SmartNoteProcessor/utils/format_converter.py:30 | `strip()` applied twice is `strip()` applied once |
| Text.StripEmpty | SmartNoteProcessor/utils/document_processor.py:129 | `strip()` is empty exactly when every character is whitespace |
| Text.LStripChars | SmartNoteProcessor/utils/format_converter.py:102 | `lstrip(chars)` drops exactly the leading characters that belong to the set |
| Text.RStripChars | SmartNoteProcessor/utils/image_analyzer.py:135 | `rstrip(chars)` drops exactly the trailing characters that belong to the set |
| Text.Lower | SmartNoteProcessor/utils/format_converter.py:32 | `lower()` keeps the length and lower-cases each character on its own (ASCII letters; see Left out) |
| Text.LowerIdempotent | SmartNoteProcessor/utils/format_converter.py:32 | lower-casing twice is lower-casing once |
| Text.ReplaceChar | SmartNoteProcessor/app.py:663 | `replace(c, rep)` leaves no `c` behind when `rep` has none, and leaves a string without `c` unchanged |
| Text.ReplaceCharPointwise | SmartNoteProcessor/app.py:663 | replacing one character by another keeps the length and changes exactly the positions that held it |
| Text.Split | SmartNoteProcessor/utils/format_converter.py:76 | `split('\n')` gives at least one piece, and no piece holds the separator |
| Text.JoinSplit | SmartNoteProcessor/utils/format_converter.py:76 | joining the pieces of a split with the separator gives the string back |
| Text.SplitJoin | SmartNoteProcessor/utils/format_converter.py:76 | splitting a join of separator-free pieces gives the pieces back |
| Text.Words | SmartNoteProcessor/utils/topic_extractor.py:82 | `split()` yields non-empty runs without whitespace |
| Text.WordsJoin | SmartNoteProcessor/utils/topic_extractor.py:82 | splitting words joined by single spaces gives back exactly those words, in order |
| Text.WordsCover | SmartNoteProcessor/utils/topic_extractor.py:82 | the words, one after another, are exactly the non-whitespace characters of the string, in order |
| Text.WordsEmpty | SmartNoteProcessor/utils/topic_extractor.py:93 | `split()` is empty exactly when the string is all whitespace |
| Text.NatToString | SmartNoteProcessor/utils/gemini_client.py:239 | `str(n)` is a non-empty string of decimal digits, with no leading zero unless `n` is 0 |
| Text.NatToStringValue | SmartNoteProcessor/utils/gemini_client.py:239 | the digits of `str(n)` read back as `n` |
| Text.NatToStringInjective | SmartNoteProcessor/utils/gemini_client.py:239 | `str(m) == str(n)` exactly when `m == n`, so the generated `topic_<n>` keys differ for different counts |
| Text.Take | SmartNoteProcessor/utils/gemini_client.py:202 | `s[:n]` is a prefix of `s`: the whole of `s` when it is short, otherwise exactly `n` characters |
| Text.RSplitOnce | SmartNoteProcessor/app.py:55 | `rsplit(sep, 1)` has two pieces exactly when `sep` occurs; the pieces are the text around the last `sep` and rebuild `s` |
| Text.SplitExt | SmartNoteProcessor/utils/document_processor.py:53 | `os.path.splitext`: root plus extension is the path, and the extension is empty or a `.` with no further dot or `/` |
| Text.SplitExtFound | SmartNoteProcessor/utils/document_processor.py:53 | `stem + "." + e`, with `e` free of dots and slashes and a non-dot in the last component of `stem`, splits into `stem` and `.e` |
| Text.SplitExtLeadingDots | SmartNoteProcessor/utils/document_processor.py:53 | a last dot preceded in its component only by dots (as in `.bashrc`) gives an empty extension |
| Text.SplitExtNoDot | SmartNoteProcessor/utils/document_processor.py:53 | a path whose last component has no dot has an empty extension |
| Dicts.Dict.Put | SmartNoteProcessor/utils/gemini_client.py:240 | `d[k] = v` keeps a well-formed dictionary: it updates the entry, and it appends `k` to the key order only when `k` is new |
| Dicts.SizeIsCardinality | SmartNoteProcessor/app.py:621 | `len(d)` is the number of entries |
| Dicts.PutFreshAppends | SmartNoteProcessor/utils/gemini_client.py:240 | inserting a new key appends it to the iteration order |
| Store.TopicMap | SmartNoteProcessor/orchestrator.py:36 | `{t.topic_id: t for t in rows}` has exactly the stored ids as keys, and each maps to the last row carrying that id |
| Store.TopicMapDistinct | SmartNoteProcessor/orchestrator.py:36 | when ids are distinct, each id maps to its own row |
| Store.FindNote | SmartNoteProcessor/orchestrator.py:51-54 | `.first()` for `(topic pk, format)`: the first matching row, or -1 exactly when no row matches |
| Store.FindUnique | SmartNoteProcessor/orchestrator.py:51-54 | in a table without duplicates, the matching row is the one `.first()` finds |
| Store.UpsertSpec | SmartNoteProcessor/app.py:564-582 | the upsert keeps at most one row per pair; afterwards the pair's row holds the new content and every other row is unchanged; the table grows only when no row was found |
| Store.NotesOf | SmartNoteProcessor/app.py:111 | `filter_by(topic_id=pk).all()` holds exactly the rows of topic `pk` |
| Store.NotesOfAppend | SmartNoteProcessor/app.py:111 | the rows of a topic in two stretches of the table are its rows in the first, then its rows in the second: storage order is kept |
| Store.NotesOfSingle | SmartNoteProcessor/app.py:111 | a single row is listed exactly when it belongs to the topic |
| Store.NotesOfFirst | SmartNoteProcessor/app.py:111-116 | the first row listed is the topic's first row in storage, the one `load_document` shows |
| Inline.SubDelimitedAbsent | SmartNoteProcessor/utils/format_converter.py:137-141 | `re.sub(r'D(.*?)D', …)` leaves a line without the delimiter unchanged |
| Inline.SubDelimitedSpan | SmartNoteProcessor/utils/format_converter.py:366-374 | a span wrapped in the delimiter (no delimiter character or newline inside) becomes `open + span + close`, e.g. `**x**` → `<strong>x</strong>` or `\textbf{x}` |
| Inline.SubLinksAbsent | SmartNoteProcessor/utils/format_converter.py:377 | the link rewrite leaves a line without `[` unchanged |
| Inline.HtmlInlinePlain | SmartNoteProcessor/utils/format_converter.py:355-379 | `_format_inline_elements` leaves text without `*`, `_`, `` ` `` and `[` unchanged |
| Inline.LatexInlinePlain | SmartNoteProcessor/utils/format_converter.py:136-141 | the LaTeX bold/italic/code rewriting leaves a line without `*` and `` ` `` unchanged |
| Inline.DigitRun | SmartNoteProcessor/utils/format_converter.py:118 | the greedy `\d+` at the start of the line: every character in the run is a digit, and the run stops at a non-digit or the end |
| Inline.NumberedItemRoundTrip | SmartNoteProcessor/utils/format_converter.py:118-125 | `n. text` satisfies `re.match(r"^\d+\.\s", …)`, and `re.sub` of that prefix gives back exactly `text` |
| Inline.DigitRunOfDigits | SmartNoteProcessor/utils/format_converter.py:118 | the greedy `\d+` over digits followed by a non-digit takes exactly those digits |
| Inline.LinkAt | SmartNoteProcessor/utils/format_converter.py:377 | a link match at the start of the text is non-empty and lies within the text |
| Latex.Document | SmartNoteProcessor/utils/format_converter.py:60-153 | the LaTeX output starts with the fixed preamble carrying `\title{title}` and ends with `\end{document}` |
| Latex.MarkdownToLatex | SmartNoteProcessor/utils/format_converter.py:48-153 | the loop over the lines with `in_list`/`list_type`/`in_code_block` produces exactly `Document(title, content)`, the fold of the per-line step |
| Latex.ConvertLine | SmartNoteProcessor/utils/format_converter.py:81-144 | the loop body for one line appends the rendering of that line's step and leaves the flags the step computes |
| Latex.AppendLine | SmartNoteProcessor/utils/format_converter.py:81-144 | after one iteration, the accumulated text is the preamble plus the rendering of the fold over one more line |
| Latex.ConvertItem | SmartNoteProcessor/utils/format_converter.py:109-126 | a list item closes another open list, begins its own environment when needed, and appends `\item text` |
| Latex.ConvertTextLine | SmartNoteProcessor/utils/format_converter.py:100-144 | the branch for a line outside code: its output and new flags are those of the step for that line |
| Latex.ConvertBodyLine | SmartNoteProcessor/utils/format_converter.py:108-144 | the list/blank/text branches agree with the step |
| Latex.ConvertPlainLine | SmartNoteProcessor/utils/format_converter.py:128-144 | the blank and text branches agree with the step |
| Latex.HeaderOut | SmartNoteProcessor/utils/format_converter.py:101-106 | a header leaves the flags unchanged and emits its sectioning command around `line.strip().lstrip('# ')` |
| Latex.BulletSteps | SmartNoteProcessor/utils/format_converter.py:109-116 | a `- ` or `* ` line switches to `itemize` and emits `\item` with the marker stripped |
| Latex.NumberedSteps | SmartNoteProcessor/utils/format_converter.py:118-126 | an `n. ` line switches to `enumerate` and emits `\item` with the number removed |
| Latex.PlainSteps | SmartNoteProcessor/utils/format_converter.py:128-144 | inside a list, a blank line ends the list and text is dropped; outside a list, both become a paragraph |
| Latex.LineCases | SmartNoteProcessor/utils/format_converter.py:81-98 | the tests apply in the code's order: title line skipped, then fence toggles verbatim, then a code line is copied, otherwise the text branches |
| Latex.ItemNesting | SmartNoteProcessor/utils/format_converter.py:110-124 | after a list item, exactly that item's environment is open, and no list was begun inside another |
| Latex.TextNesting | SmartNoteProcessor/utils/format_converter.py:100-135 | for every line kind, the list markers emitted move the open environment from the flags before to the flags after |
| Latex.StepNesting | SmartNoteProcessor/utils/format_converter.py:81-135 | the same for every line, including fences and code lines |
| Latex.RunNesting | SmartNoteProcessor/utils/format_converter.py:81-144 | over any prefix of the lines, the list markers are well nested and end with the environment the flags say is open |
| Latex.ListsBalanced | SmartNoteProcessor/utils/format_converter.py:109-148 | every `\begin{itemize}`/`\begin{enumerate}` is issued while no list is open, every `\end` closes the open one, and none is open at `\end{document}` |
| Latex.FenceClassified | SmartNoteProcessor/utils/format_converter.py:83-87 | a line counts as a fence exactly when its stripped form starts with three backticks (the title test cannot shadow it) |
| Latex.TextNoVerbatim | SmartNoteProcessor/utils/format_converter.py:100-144 | no line outside the fence handling issues a verbatim marker |
| Latex.StepFencing | SmartNoteProcessor/utils/format_converter.py:87-98 | a step toggles `in_code_block` exactly on a fence and emits begin/end verbatim in turn |
| Latex.RunFencing | SmartNoteProcessor/utils/format_converter.py:81-98 | after any prefix, a verbatim block is open exactly when the prefix holds an odd number of fences, and the markers alternate |
| Latex.VerbatimPaired | SmartNoteProcessor/utils/format_converter.py:87-94 | verbatim markers alternate, and only a closing fence closes a block; a block is left open exactly when the fence count is odd |
| Latex.TitleLinesDropped | SmartNoteProcessor/utils/format_converter.py:82-84 | a line whose stripped form is `# title` contributes nothing anywhere: converting without such lines gives the same flags and output |
| Latex.CodeLineCopied | SmartNoteProcessor/utils/format_converter.py:96-98 | inside a fenced block, a line is copied as it is, followed by a newline |
| Latex.ListLineRules | SmartNoteProcessor/utils/format_converter.py:100-135 | a header leaves an open list open, and a text line inside a list is dropped |
| Latex.TextKind | SmartNoteProcessor/utils/format_converter.py:100-144 | once the title and fence tests are past, a line is a header, an item, blank or text |
| Latex.PlainKind | SmartNoteProcessor/utils/format_converter.py:128-144 | a line that is neither header nor item is blank exactly when its stripped form is empty, and text otherwise |
| Latex.RunPrefix | SmartNoteProcessor/utils/format_converter.py:81-144 | the state after `i + 1` lines is one step from the state after `i`, and the output grows by that step's pieces |
| Latex.RunSnoc | SmartNoteProcessor/utils/format_converter.py:81-144 | converting one more line appends exactly that line's pieces |
| Latex.ItemNoVerbatim | SmartNoteProcessor/utils/format_converter.py:108-126 | a list item never emits a verbatim marker |
| Html.Escape | SmartNoteProcessor/utils/format_converter.py:257 | an escaped code line carries no `<` and no `>` |
| Html.UnescapeChar | SmartNoteProcessor/utils/format_converter.py:257 | reading back the entity that one character escapes to gives that character |
| Html.EscapeRoundTrip | SmartNoteProcessor/utils/format_converter.py:257 | escaping `&`, `<`, `>` in that order loses nothing: reading the entities back gives the original line |
| Html.Page | SmartNoteProcessor/utils/format_converter.py:155-353 | the page starts with the head that carries the title and ends with the closing `</body></html>` tail |
| Html.RunPrefix | SmartNoteProcessor/utils/format_converter.py:241-336 | the loop state after `i + 1` lines is one step from the state after `i`, and the output grows by exactly that step's pieces |
| Html.ConvertFence | SmartNoteProcessor/utils/format_converter.py:245-253 | a fence line flips `in_code_block`; it opens `<pre><code>` with the language after the backticks, or closes the open block |
| Html.ConvertCode | SmartNoteProcessor/utils/format_converter.py:255-259 | inside a code block the line, not its stripped form, is appended escaped with a newline |
| Html.ConvertItem | SmartNoteProcessor/utils/format_converter.py:289-316 | a list item closes an open paragraph; outside a list it opens the item's list; inside the other list it closes that list and opens none; the item becomes `<li>…</li>` |
| Html.ConvertParagraph | SmartNoteProcessor/utils/format_converter.py:319-336 | a text line leaves any list and ends with a paragraph open; it opens `<p>` or adds one space, then the inline-formatted text |
| Html.ParagraphJoins | SmartNoteProcessor/utils/format_converter.py:330-336 | a text line right after another text line stays in the same paragraph, adding one space and its own text and nothing else |
| Html.BodySteps | SmartNoteProcessor/utils/format_converter.py:289-336 | bullet items, numbered items and text lines step as the item rule (with `ul` or `ol`) and the paragraph rule say |
| Html.ConvertBodyLine | SmartNoteProcessor/utils/format_converter.py:289-336 | a line that is not blank, a fence or a header appends what its kind's rule says and leaves the flags that rule gives |
| Html.HeadingRendered | SmartNoteProcessor/utils/format_converter.py:275-286 | a header line leaves every flag unchanged, so an open paragraph or list stays open, and appends `<hN>text</hN>` |
| Html.ConvertHeadingLine | SmartNoteProcessor/utils/format_converter.py:275-336 | the six header prefixes `# ` to `###### ` are tested before the list and text branches; a header appends `<hN>…</hN>` and leaves the flags alone |
| Html.ConvertTextLine | SmartNoteProcessor/utils/format_converter.py:261-336 | outside a code block, a blank line closes the open paragraph and then the open list; other lines go by their kind |
| Html.LineCases | SmartNoteProcessor/utils/format_converter.py:241-259 | the fence test comes first and toggles the block; inside a block any other line is copied escaped; outside one the line goes by its kind |
| Html.ConvertLine | SmartNoteProcessor/utils/format_converter.py:241-336 | one pass of the loop body appends exactly that line's pieces and leaves the flags the step gives |
| Html.AppendLine | SmartNoteProcessor/utils/format_converter.py:241-336 | appending one line's output to the text so far keeps the text equal to the rendered fold over the lines read |
| Html.ConvertLines | SmartNoteProcessor/utils/format_converter.py:233-336 | the loop over `content.split('\n')` produces the rendered fold of the step over all lines, with the flags it ends in |
| Html.CloseOpenTags | SmartNoteProcessor/utils/format_converter.py:338-345 | after the last line an open paragraph is closed, then an open list; an open code block is not closed |
| Html.MarkdownToHtml | SmartNoteProcessor/utils/format_converter.py:155-353 | the method's result is the page: head, the fold over the lines, the closing tags, the tail |
| Html.ItemScan | SmartNoteProcessor/utils/format_converter.py:289-316 | an item of the open list kind, or outside any list, keeps each tag family's scan equal to what the flags say is open |
| Html.ParagraphScan | SmartNoteProcessor/utils/format_converter.py:319-336 | a text line keeps each tag family's scan equal to what the flags say is open |
| Html.CloseScan | SmartNoteProcessor/utils/format_converter.py:338-345 | the closing tags close exactly the open paragraph and list |
| Html.StepScan | SmartNoteProcessor/utils/format_converter.py:241-336 | any line that does not switch list kinds keeps paragraphs out of lists and keeps every family's tags nested as the flags say |
| Html.SwitchScan | SmartNoteProcessor/utils/format_converter.py:289-316 | even a switch of list kinds keeps paragraph and code-block tags nested |
| Html.SwitchLeavesListUnopened | SmartNoteProcessor/utils/format_converter.py:289-316 | switching list kinds closes the open list and opens none: `in_list` stays set while no list tag is open, so the next item follows a closing tag |
| Html.RunScan | SmartNoteProcessor/utils/format_converter.py:241-336 | over any prefix, paragraph and code-block tags nest as the flags say, and list tags too when no line switches list kinds |
| Html.PageScan | SmartNoteProcessor/utils/format_converter.py:233-345 | over the whole body with its closing tags, each family is left open only where the flags after the loop say so |
| Html.ParagraphsBalanced | SmartNoteProcessor/utils/format_converter.py:262-345 | every `<p>` opens while no paragraph is open and is closed before the next; none is left open on the page |
| Html.ListsBalanced | SmartNoteProcessor/utils/format_converter.py:262-345 | when no line switches list kinds, list tags nest and every list is closed |
| Html.CodeToggle | SmartNoteProcessor/utils/format_converter.py:245-253 | only a fence line changes `in_code_block` |
| Html.FenceClassified | SmartNoteProcessor/utils/format_converter.py:242-245 | a line is treated as a fence exactly when its stripped form starts with three backticks |
| Html.CodeFlag | SmartNoteProcessor/utils/format_converter.py:241-253 | after any lines, a code block is open exactly when the lines hold an odd number of fences |
| Html.CodeBlocksAlternate | SmartNoteProcessor/utils/format_converter.py:241-345 | `<pre><code>` and `</code></pre>` alternate; a block is left open on the page exactly when the fence count is odd |
| Html.CodeLineEscaped | SmartNoteProcessor/utils/format_converter.py:255-259 | inside a code block a non-fence line leaves the flags alone and is copied escaped: no `<` or `>`, and it reads back to the line |
| Html.TextKind | SmartNoteProcessor/utils/format_converter.py:261-336 | a line past the fence test is never taken for a fence |
| Html.HeadingKind | SmartNoteProcessor/utils/format_converter.py:274-336 | a non-blank line past the fence test is a header, an item or text |
| Html.BodyKind | SmartNoteProcessor/utils/format_converter.py:288-336 | a line that is neither blank nor header is a bullet item, a numbered item or text |
| Hyperlinks.FormatCaseInsensitive | SmartNoteProcessor/utils/format_converter.py:410-423 | the format name is compared after `lower()`: lower-casing it first chooses the same branch |
| Hyperlinks.ExpandLiteral | SmartNoteProcessor/utils/format_converter.py:413-427 | a replacement template without a backslash expands to itself, as `re.sub` treats it |
| Hyperlinks.BadEscapeH | SmartNoteProcessor/utils/format_converter.py:419-421 | a template that starts with `\h` is rejected by `re.sub` with "bad escape \h at position 0" |
| Hyperlinks.SubCopies | SmartNoteProcessor/utils/format_converter.py:412-427 | `re.sub` copies text holding no guarded match unchanged, up to the next match |
| Hyperlinks.SubAbsent | SmartNoteProcessor/utils/format_converter.py:412-427 | content in which the name does not occur is left as it is |
| Hyperlinks.SubFirstMatch | SmartNoteProcessor/utils/format_converter.py:412-427 | the first guarded occurrence is replaced, everything before it is kept, and scanning resumes after the occurrence |
| Hyperlinks.Underscored | SmartNoteProcessor/utils/format_converter.py:413 | the link target stem `name.replace(" ", "_")` holds no space |
| Hyperlinks.LiteralTemplate | SmartNoteProcessor/utils/format_converter.py:412-414 | for markdown and HTML, with no backslash in the name, the link text `re.sub` inserts is exactly the template built from the name |
| Hyperlinks.Candidates | SmartNoteProcessor/utils/format_converter.py:399-407 | the inner loop rewrites at most one name per topic, and only names of four or more characters |
| Hyperlinks.OwnTopicIgnored | SmartNoteProcessor/utils/format_converter.py:400-401 | whatever the note's own topic holds, it never contributes a link to that note |
| Hyperlinks.ShortNameIgnored | SmartNoteProcessor/utils/format_converter.py:405-407 | a topic whose name has fewer than four characters never contributes a link |
| Hyperlinks.OtherFormatUnchanged | SmartNoteProcessor/utils/format_converter.py:409-427 | with an unsupported format no branch runs and the content stays as it is |
| Hyperlinks.NoOccurrenceUnchanged | SmartNoteProcessor/utils/format_converter.py:409-427 | in every format, content in which no candidate name occurs (names without a backslash) is left unchanged |
| Hyperlinks.LatexRewriteFails | SmartNoteProcessor/utils/format_converter.py:416-421 | as written, one `re.sub` with the LaTeX template raises "bad escape \h at position 0" for any name, whatever the content |
| Hyperlinks.IntendedLatexRewrite | SmartNoteProcessor/utils/format_converter.py:416-421 | the model's LaTeX rewrite, with the backslash doubled, succeeds and puts `\hyperref[stem]{name}` itself at every occurrence |
| Hyperlinks.TemplateExpands | SmartNoteProcessor/utils/format_converter.py:412-427 | for markdown, HTML and the corrected LaTeX template, with no backslash in the name, the text inserted at each occurrence is exactly the link built from the name |
| Hyperlinks.DoubledBackslash | SmartNoteProcessor/utils/format_converter.py:419-421 | a doubled backslash in front of a literal template stands for one backslash |
| Hyperlinks.CandidatesStep | SmartNoteProcessor/utils/format_converter.py:399-407 | topic `j` adds its name to the candidates exactly when it is another topic with a name of at least four characters |
| Hyperlinks.RewriteSnoc | SmartNoteProcessor/utils/format_converter.py:399-427 | one more name rewrites the text so far, or keeps the earlier error |
| Hyperlinks.LinkErrorStays | SmartNoteProcessor/utils/format_converter.py:399-427 | once a rewrite raises, the note's inner loop ends with that same error |
| Hyperlinks.LinkNote | SmartNoteProcessor/utils/format_converter.py:395-427 | the inner loop's result is the ordered chain of rewrites for the candidate names, or the first error |
| Hyperlinks.LinkKeys | SmartNoteProcessor/utils/format_converter.py:394-430 | the outer loop keeps every note id, name and format; only contents change |
| Hyperlinks.LinkKeysFirst | SmartNoteProcessor/utils/format_converter.py:394-430 | an error on a note stops the pass with that note unwritten; otherwise its content is replaced in place and the pass goes on |
| Hyperlinks.LinkKeysUnvisited | SmartNoteProcessor/utils/format_converter.py:394-430 | a note the pass has not reached keeps its content |
| Hyperlinks.LinkKeysContents | SmartNoteProcessor/utils/format_converter.py:394-430 | without an error, every visited note holds exactly the linked version of its original content |
| Hyperlinks.LinkAll | SmartNoteProcessor/utils/format_converter.py:381-432 | the returned notes are the same dictionary with the same keys in the same order |
| Hyperlinks.LinkedContents | SmartNoteProcessor/utils/format_converter.py:381-432 | after a pass without error each note holds exactly its own content rewritten by the other topics' names |
| Hyperlinks.OtherFormatKeepsNotes | SmartNoteProcessor/utils/format_converter.py:381-432 | with an unsupported format the notes come back unchanged and nothing is raised |
| Hyperlinks.LinkLoop | SmartNoteProcessor/utils/format_converter.py:394-430 | the loop over the note ids computes the outer-loop specification: the notes it leaves and the error that stopped it |
| Hyperlinks.AddHyperlinks | SmartNoteProcessor/utils/format_converter.py:381-432 | `add_hyperlinks` returns the linked notes and the message of the `re.error` that stopped it, as the specification of the pass says |
| FormatConverter.Convert | SmartNoteProcessor/utils/format_converter.py:17-46 | `convert` strips the content, then dispatches on the lower-cased format name to the markdown, LaTeX or HTML branch, or returns the stripped content |
| FormatConverter.MarkdownConverted | SmartNoteProcessor/utils/format_converter.py:30-36 | the markdown branch titles the stripped content |
| FormatConverter.TitledSpec | SmartNoteProcessor/utils/format_converter.py:34-35 | a titled note opens with `# ` and ends with the content; it equals the content exactly when the content already opens with `# ` |
| FormatConverter.MarkdownHasTitle | SmartNoteProcessor/utils/format_converter.py:30-36 | markdown output always opens with a title header and ends with the stripped content; the header is added exactly when the stripped content lacks one |
| FormatConverter.TitledStable | SmartNoteProcessor/utils/format_converter.py:30-36 | a titled non-empty stripped note is its own `strip()` and is left alone when titled again |
| FormatConverter.MarkdownIdempotent | SmartNoteProcessor/utils/format_converter.py:30-36 | converting to markdown twice gives what converting once gives, when the stripped content is not empty |
| FormatConverter.TitledEmptyChanges | SmartNoteProcessor/utils/format_converter.py:30-36 | empty content becomes the bare header `# title` plus two newlines, which the next `strip()` shortens, so titling again changes it |
| FormatConverter.MarkdownEmptyNotIdempotent | SmartNoteProcessor/utils/format_converter.py:30-36 | for empty content markdown conversion is not idempotent: the second conversion differs from the first |
| FormatConverter.FormatNameCaseInsensitive | SmartNoteProcessor/utils/format_converter.py:32-44 | lower-casing the format name first gives the same result |
| FormatConverter.UnsupportedFormatStripped | SmartNoteProcessor/utils/format_converter.py:44-46 | an unsupported format name returns the stripped content |
| Orchestrator.Step | SmartNoteProcessor/orchestrator.py:40-121 | each topic adds exactly one success or one error entry; earlier errors and rows are kept; a row is added only for a topic with a stored topic row and no note for its `(pk, format)` pair; the notes only gain this topic's id |
| Orchestrator.TopicOutcomes | SmartNoteProcessor/orchestrator.py:44-121 | a topic without a stored row is skipped with its error; an existing note is reused with no write; an `"Error:"` marker in the extracted or enhanced text skips the topic with its error and no write; otherwise one row holding `convert(name, enhanced + "", format)` is added and the next query for the pair finds it |
| Orchestrator.ProcessTopic | SmartNoteProcessor/orchestrator.py:41-121 | the loop body for one topic computes the step's outcome |
| Orchestrator.StepNotes | SmartNoteProcessor/orchestrator.py:56-116 | a topic either leaves `generated_notes` as it was or adds one success and stores its note under its id |
| Orchestrator.NewPairKeepsUnique | SmartNoteProcessor/orchestrator.py:51-109 | adding a note only for a pair that had none keeps the table free of duplicate `(topic, format)` pairs |
| Orchestrator.ConvertedNotes | SmartNoteProcessor/orchestrator.py:97-107 | with the format converter as `convert`, every markdown note the loop stores opens with a title header |
| Orchestrator.Loop | SmartNoteProcessor/orchestrator.py:40-121 | over `k` topics, successes plus errors grow by exactly `k`; errors and rows are only appended; a duplicate-free table stays duplicate-free |
| Orchestrator.LoopNoteIds | SmartNoteProcessor/orchestrator.py:40-121 | every note the loop leaves belongs to a topic it visited |
| Orchestrator.LoopCountsNotes | SmartNoteProcessor/orchestrator.py:56-116 | over distinct topic ids, each success adds exactly one note, so the count equals the number of notes |
| Orchestrator.TopicLoop | SmartNoteProcessor/orchestrator.py:24-121 | the loop, run from no notes, no errors and a zero count, computes the fold of the step over the topics in order |
| Orchestrator.LinkSources | SmartNoteProcessor/orchestrator.py:128-137 | the notes to link form a valid dictionary holding only ids of the topics dictionary |
| Orchestrator.LinkSourcesOwn | SmartNoteProcessor/orchestrator.py:130-131 | every topic with a note in this run contributes that note |
| Orchestrator.LinkSourcesStored | SmartNoteProcessor/orchestrator.py:132-137 | any other known topic contributes its first stored note for the pair exactly when one exists |
| Orchestrator.GatherStep | SmartNoteProcessor/orchestrator.py:129-137 | one more topic adds its note of this run, or else its stored note, or nothing |
| Orchestrator.GatherSources | SmartNoteProcessor/orchestrator.py:128-137 | the gathering loop builds exactly `all_notes_for_hyperlinking` as specified |
| Orchestrator.WriteLinks | SmartNoteProcessor/orchestrator.py:143-152 | the write-back keeps the table's length and every row's `(topic, format)` pair, and assigns only rows of the table |
| Orchestrator.SamePairs | SmartNoteProcessor/orchestrator.py:146-150 | tables with the same pairs answer every `filter_by(...).first()` query with the same row, and keep uniqueness |
| Orchestrator.WriteLinksTargets | SmartNoteProcessor/orchestrator.py:143-152 | every assigned row is the first stored note of some linked id |
| Orchestrator.DistinctTargets | SmartNoteProcessor/orchestrator.py:144-149 | distinct ids on distinct topic rows reach distinct first notes |
| Orchestrator.WriteLinksTouched | SmartNoteProcessor/orchestrator.py:150-152 | with ids on distinct topic rows, a row is assigned (and gets a new `updated_at`) exactly when its content changes |
| Orchestrator.TouchOne | SmartNoteProcessor/orchestrator.py:150-152 | giving one untouched row new content marks exactly that row as assigned |
| Orchestrator.WriteLinksContents | SmartNoteProcessor/orchestrator.py:143-152 | the first stored note of each linked id ends holding the linked content |
| Orchestrator.WriteLinksUnique | SmartNoteProcessor/orchestrator.py:143-152 | the write-back changes contents only, so it adds no duplicate pair |
| Orchestrator.WriteBack | SmartNoteProcessor/orchestrator.py:143-152 | the update loop leaves the table and the assigned rows as the write-back specification says |
| Orchestrator.Aliased | SmartNoteProcessor/orchestrator.py:139-160 | after a failed pass the run's notes keep their ids and order; the shared note objects the pass reached hold their rewritten content |
| Orchestrator.LinkPass | SmartNoteProcessor/orchestrator.py:124-160 | the hyperlink step keeps the success count and leaves a valid notes dictionary |
| Orchestrator.LinkPassOutcome | SmartNoteProcessor/orchestrator.py:124-160 | without notes nothing happens; otherwise the step succeeds keeping the errors, or fails keeping the table and adding one "Error adding internal links" entry; the table keeps its pairs and uniqueness, and no note of the run is lost |
| Orchestrator.LinkPassLinks | SmartNoteProcessor/orchestrator.py:139-154 | after a successful step each note of the run holds exactly its linked content, and so does the first stored note of each linked topic |
| Orchestrator.AddLinks | SmartNoteProcessor/orchestrator.py:124-160 | the hyperlink step as the method runs it is the specified pass |
| Orchestrator.WithIndex | SmartNoteProcessor/orchestrator.py:162-180 | the index step changes neither the count, the errors nor the table, and keeps every note |
| Orchestrator.RunCounts | SmartNoteProcessor/orchestrator.py:24-183 | a missing document yields only its error, no notes and a zero count; otherwise every topic yields one success or one error, plus at most one trailing link error |
| Orchestrator.RunStore | SmartNoteProcessor/orchestrator.py:24-183 | a run keeps every stored row's pair, only appends rows, and adds no duplicate pair |
| Orchestrator.PairsKept | SmartNoteProcessor/orchestrator.py:102-152 | rows kept at the front of the table keep their pairs through the later content rewrite |
| Orchestrator.RunIndex | SmartNoteProcessor/orchestrator.py:162-180 | a markdown run with a success ends with the "Introduction" note under `000_index_introduction_page`, whose content is the table of contents over the linked notes |
| Orchestrator.ProcessAndGenerate | SmartNoteProcessor/orchestrator.py:18-183 | the method computes the specified run: document check, topic loop, hyperlink step, index step |
| IndexPage.Entries | SmartNoteProcessor/orchestrator.py:166-168 | the items collected are items of the notes dictionary other than the page itself, and every such item is collected |
| IndexPage.NameLeTotal | SmartNoteProcessor/orchestrator.py:166-169 | Python's string order compares any two names one way or the other |
| IndexPage.Insert | SmartNoteProcessor/orchestrator.py:166-169 | inserting an entry adds exactly that entry and keeps sorted entries sorted |
| IndexPage.SortedTail | SmartNoteProcessor/orchestrator.py:166-169 | the rest of a sorted run of entries is sorted |
| IndexPage.SortByName | SmartNoteProcessor/orchestrator.py:166-169 | `sorted(..., key=name)` returns a permutation of the entries in name order |
| IndexPage.FileNameSpec | SmartNoteProcessor/orchestrator.py:173 | the file name keeps each character in place except spaces and slashes, which become `_`, and ends in `.md` |
| IndexPage.LinesAppend | SmartNoteProcessor/orchestrator.py:170-174 | the lines of two runs of entries are the lines of the first, then of the second |
| IndexPage.LinesSplit | SmartNoteProcessor/orchestrator.py:170-174 | the page text is the lines before an entry, its line, then the lines after it |
| IndexPage.LinesSnoc | SmartNoteProcessor/orchestrator.py:170-174 | one more entry adds its line at the end |
| IndexPage.HeaderFirst | SmartNoteProcessor/orchestrator.py:164 | the page starts with its table-of-contents header |
| IndexPage.NoteListed | SmartNoteProcessor/orchestrator.py:166-168 | every note other than the page is among the sorted entries |
| IndexPage.LineOnPage | SmartNoteProcessor/orchestrator.py:164-174 | each sorted entry has its own line after those sorted before it; for a markdown note the line is `- [name](./file.md)` |
| IndexPage.SortedEntries | SmartNoteProcessor/orchestrator.py:166-168 | every sorted entry is an item of the notes dictionary other than the page |
| IndexPage.CollectEntries | SmartNoteProcessor/orchestrator.py:166-168 | the collecting loop gathers exactly the specified entries in dictionary order |
| IndexPage.AppendLines | SmartNoteProcessor/orchestrator.py:170-174 | the appending loop produces the header followed by the lines of the sorted entries |
| IndexPage.BuildContent | SmartNoteProcessor/orchestrator.py:163-180 | the page the method builds is the specified `intro_content` |
| TopicExtractor.Clamp | SmartNoteProcessor/utils/topic_extractor.py:43 | the level lies in 0..100; a level in range is kept, one below becomes 0, one above becomes 100 |
| TopicExtractor.ExtractionError | SmartNoteProcessor/utils/topic_extractor.py:52-60 | the failure result is a one-entry dictionary under the key `error` |
| TopicExtractor.ClampedRequest | SmartNoteProcessor/utils/topic_extractor.py:41-51 | the client is only asked for a clamped level, so any level behaves as its clamp, and levels outside the range as the nearest bound |
| TopicExtractor.ClientOutsideRangeIrrelevant | SmartNoteProcessor/utils/topic_extractor.py:43-46 | two clients that agree on 0..100 give the same result for every requested level |
| TopicExtractor.FailureIsOneTopic | SmartNoteProcessor/utils/topic_extractor.py:52-60 | when the client raises, the result is exactly one topic, `error`, whose description starts with "Failed to extract topics: " |
| TopicExtractor.RelatedSymmetric | SmartNoteProcessor/utils/topic_extractor.py:93-97 | the overlap test treats the two word sets alike |
| TopicExtractor.TopicWords | SmartNoteProcessor/utils/topic_extractor.py:76-90 | the word set of each topic, in key order, is the lower-cased split of its name, a space and its description |
| TopicExtractor.RelatedTo | SmartNoteProcessor/utils/topic_extractor.py:85-98 | the related list of a topic among the first `n` has at most `n` entries |
| TopicExtractor.RelatedToMembers | SmartNoteProcessor/utils/topic_extractor.py:85-98 | topic `j` is listed for topic `i` exactly when `j` is another of the topics scanned and the two overlap enough; no id is listed twice |
| TopicExtractor.RelatedToOrdered | SmartNoteProcessor/utils/topic_extractor.py:85-98 | ids are appended while scanning the topic list, so of two listed ids the one listed first belongs to the earlier topic |
| TopicExtractor.RelatedToSubset | SmartNoteProcessor/utils/topic_extractor.py:85-98 | a related list holds only topic ids |
| TopicExtractor.RelatedTopics | SmartNoteProcessor/utils/topic_extractor.py:79-98 | the inner loop builds exactly the related list of topic `i` |
| TopicExtractor.PrefixEntries | SmartNoteProcessor/utils/topic_extractor.py:78-100 | after `n` rounds of the outer loop the first `n` topics have entries, each holding its related list, and no other key is present |
| TopicExtractor.PrefixKeysStep | SmartNoteProcessor/utils/topic_extractor.py:100 | one more round adds only the next topic's key |
| TopicExtractor.PrefixValuesStep | SmartNoteProcessor/utils/topic_extractor.py:100 | one more round keeps the earlier entries and adds the next topic's list |
| TopicExtractor.PrefixValid | SmartNoteProcessor/utils/topic_extractor.py:73-100 | the entries of the first `n` topics, in key order, form a well-formed dictionary |
| TopicExtractor.PrefixStep | SmartNoteProcessor/utils/topic_extractor.py:100 | storing topic `n`'s list extends that dictionary by one fresh key at the end |
| TopicExtractor.Relationships | SmartNoteProcessor/utils/topic_extractor.py:62-102 | the result has one entry per topic, in the topics' order |
| TopicExtractor.GetTopicRelationships | SmartNoteProcessor/utils/topic_extractor.py:62-102 | the method's loops compute the specified relationships |
| TopicExtractor.RelationshipsSpec | SmartNoteProcessor/utils/topic_extractor.py:62-102 | topic `j` is related to topic `i` exactly when they are different topics whose word sets are non-empty and overlap in more than a tenth of their union; no topic is related to itself |
| TopicExtractor.RelationshipsSymmetric | SmartNoteProcessor/utils/topic_extractor.py:62-102 | `j` is listed for `i` exactly when `i` is listed for `j` |
| TopicExtractor.RelatedListsAreTopics | SmartNoteProcessor/utils/topic_extractor.py:62-102 | every related list names only topics, each once, in the order of the topics |
| GeminiClient.Band | SmartNoteProcessor/utils/gemini_client.py:258-277 | a level falls in one of five bands, by the cut points 20, 40, 60 and 80 |
| GeminiClient.DescriptionsDistinct | SmartNoteProcessor/utils/gemini_client.py:268-277 | the five granularity sentences differ from one another |
| GeminiClient.GranularityBands | SmartNoteProcessor/utils/gemini_client.py:258-277 | two levels get the same sentence exactly when they lie in the same band |
| GeminiClient.TopicPromptExcerpt | SmartNoteProcessor/utils/gemini_client.py:202 | the prompt carries a prefix of the document of at most 10000 characters, the whole document when it is that short |
| GeminiClient.GenerateContent | SmartNoteProcessor/utils/gemini_client.py:107-179 | the retry loop returns the text and makes the number of requests that the specification of the loop gives |
| GeminiClient.GenerateFrom | SmartNoteProcessor/utils/gemini_client.py:129-179 | every attempt before the last raised without a quota marker; the call returns the last attempt's text, the quota message, or, after exactly `retry_count + 1` attempts, the final failure message |
| GeminiClient.RetryOutcome | SmartNoteProcessor/utils/gemini_client.py:129-179 | with `retry_count >= 0` a call makes between one and `retry_count + 1` requests and returns the model's text or an error message; with a negative count it makes none and returns `None` |
| GeminiClient.QuotaStopsRetrying | SmartNoteProcessor/utils/gemini_client.py:159-168 | an exception naming a quota marker ends the loop at once with the fixed quota message |
| GeminiClient.FailureMessages | SmartNoteProcessor/utils/gemini_client.py:166-179 | the text client's failure and quota messages start with "Error: "; the vision client's final failure starts with "Error analyzing image:" and not with "Error:" |
| GeminiClient.JsonSlice | SmartNoteProcessor/utils/gemini_client.py:225-231 | the slice exists exactly when the answer holds both `{` and `}`; it is empty exactly when every `}` comes before every `{`; otherwise it opens with `{`, closes with `}` and has no `{` before it and no `}` after it in the answer, so it runs from the first `{` to the last `}` |
| GeminiClient.ErrorTopics | SmartNoteProcessor/utils/gemini_client.py:250-256 | the parse failure result is one topic under `error_topic` |
| GeminiClient.TopicsFromList | SmartNoteProcessor/utils/gemini_client.py:237-243 | the topics built from the list form a valid dictionary with at most one topic per entry |
| GeminiClient.TopicsFromListStep | SmartNoteProcessor/utils/gemini_client.py:238-243 | each entry stores its defaults-applied data under its id, or `topic_<n>` with `n` the current size |
| GeminiClient.LastEntryWins | SmartNoteProcessor/utils/gemini_client.py:238-243 | the last entry's data is what its key holds at the end |
| GeminiClient.ExplicitIdsKept | SmartNoteProcessor/utils/gemini_client.py:237-243 | every entry with an id ends up in the dictionary, and the only other keys are generated `topic_<n>` keys |
| GeminiClient.NoBraceIsErrorTopic | SmartNoteProcessor/utils/gemini_client.py:225-229 | an answer lacking `{` or `}`, such as the fixed quota message or a final-failure message whose exception text holds no brace, yields the error topic "No JSON found in response" |
| GeminiClient.BuildTopics | SmartNoteProcessor/utils/gemini_client.py:237-243 | the loop over the entries builds the specified dictionary |
| GeminiClient.ParseTopicsResponse | SmartNoteProcessor/utils/gemini_client.py:223-256 | parsing the answer gives the specified topics: the entries of the JSON slice, or the error topic |
| ImageAnalyzer.CleanResponse | SmartNoteProcessor/utils/image_analyzer.py:135-137 | the cleaned answer is a window of the answer: only whitespace, backticks and the letters of the `json` tag are cut before it, only whitespace and backticks after it |
| ImageAnalyzer.CleanFenced | SmartNoteProcessor/utils/image_analyzer.py:135-137 | an answer fenced as a json code block, `` ```json ``, newline, body, newline, `` ``` ``, cleans to exactly the body when the body has no whitespace at its ends |
| ImageAnalyzer.JsonObjectSlice | SmartNoteProcessor/utils/image_analyzer.py:139-141 | there is no match of `\{.*\}` under DOTALL exactly when `{` or `}` is missing or every `}` comes before every `{`; a match is at least two characters long, opens with `{`, closes with `}`, and has no `{` before it and no `}` after it, so it runs from the first `{` to the last `}` |
| ImageAnalyzer.NameIdsLastWins | SmartNoteProcessor/utils/image_analyzer.py:150 | a name is mapped exactly when some topic carries it, and it maps to the last topic that carries it |
| ImageAnalyzer.NameIdsAreKeys | SmartNoteProcessor/utils/image_analyzer.py:150 | the name map only yields topic ids |
| ImageAnalyzer.VisionInfo | SmartNoteProcessor/utils/image_analyzer.py:153-158 | the collected information forms a valid dictionary |
| ImageAnalyzer.VisionInfoStep | SmartNoteProcessor/utils/image_analyzer.py:153-158 | an item is stored, stripped, under its topic's id exactly when it names a known topic and holds a non-blank string; other items change nothing |
| ImageAnalyzer.VisionInfoSources | SmartNoteProcessor/utils/image_analyzer.py:153-158 | every stored entry comes from a qualifying item naming that id, and holds that item's stripped text |
| ImageAnalyzer.VisionInfoComplete | SmartNoteProcessor/utils/image_analyzer.py:153-158 | every qualifying item leaves an entry under its id |
| ImageAnalyzer.VisionInfoKeys | SmartNoteProcessor/utils/image_analyzer.py:153-158 | stored entries are non-empty and filed under ids the name map produces |
| ImageAnalyzer.CollectVisionInfo | SmartNoteProcessor/utils/image_analyzer.py:153-158 | the loop over the decoded items collects exactly the specified information |
| ImageAnalyzer.ParseVision | SmartNoteProcessor/utils/image_analyzer.py:116-172 | the parsed information is a valid dictionary |
| ImageAnalyzer.ParseVisionResponse | SmartNoteProcessor/utils/image_analyzer.py:116-172 | the method computes the specified parse: clean, slice, decode, collect |
| ImageAnalyzer.ParseVisionKeys | SmartNoteProcessor/utils/image_analyzer.py:116-172 | the parsed answer names only existing topics, and each stored text is non-empty |
| ImageAnalyzer.NoObjectNoInfo | SmartNoteProcessor/utils/image_analyzer.py:139-165 | an answer without an object, with `{}`, or with an undecodable object yields no information |
| ImageAnalyzer.ExtractInfo | SmartNoteProcessor/utils/image_analyzer.py:26-77 | an image that could not be encoded, or encoded to nothing, yields no information; the result is a valid dictionary |
| ImageAnalyzer.ImageFiles | SmartNoteProcessor/utils/image_analyzer.py:198-203 | the image files are exactly the regular files of the listing whose lower-cased extension is an image extension |
| ImageAnalyzer.Initial | SmartNoteProcessor/utils/image_analyzer.py:194 | the starting map has one empty entry per topic id, in topic order |
| ImageAnalyzer.AddImage | SmartNoteProcessor/utils/image_analyzer.py:213-215 | adding one image's information keeps the map's keys |
| ImageAnalyzer.AddImageInfo | SmartNoteProcessor/utils/image_analyzer.py:213-215 | the inner loop writes one image's entries, or reports the `KeyError` of an unknown id, as specified |
| ImageAnalyzer.AddImages | SmartNoteProcessor/utils/image_analyzer.py:206-215 | adding the images in order keeps the map's keys |
| ImageAnalyzer.AddImageEntries | SmartNoteProcessor/utils/image_analyzer.py:213-215 | adding one listed image keeps every stored piece non-empty, owned by a listed file and equal to what that file yielded for the topic |
| ImageAnalyzer.AddImageKeeps | SmartNoteProcessor/utils/image_analyzer.py:213-215 | adding an image never removes a stored piece |
| ImageAnalyzer.AddImageStores | SmartNoteProcessor/utils/image_analyzer.py:211-215 | when every id an image yields has an entry, no KeyError arises and each non-empty piece is stored under its topic |
| ImageAnalyzer.AddImagesEntries | SmartNoteProcessor/utils/image_analyzer.py:206-215 | adding listed images keeps every stored piece non-empty, owned by a listed file and equal to what that file yielded |
| ImageAnalyzer.AddImagesKeeps | SmartNoteProcessor/utils/image_analyzer.py:206-215 | adding images never removes a stored piece |
| ImageAnalyzer.AddImagesStores | SmartNoteProcessor/utils/image_analyzer.py:206-215 | when every id the images yield has an entry, every non-empty piece they yield is stored |
| ImageAnalyzer.AnalyzeImages | SmartNoteProcessor/utils/image_analyzer.py:174-221 | the result has one entry per topic, in topic order |
| ImageAnalyzer.AnalyzeImagesForTopics | SmartNoteProcessor/utils/image_analyzer.py:174-221 | the method's loop computes the specified aggregation |
| ImageAnalyzer.AnalyzeImagesSpec | SmartNoteProcessor/utils/image_analyzer.py:174-221 | one entry per topic; `result[k][f]` is exactly the non-empty text that image `f`, a listed regular file with an image extension, yielded for topic `k`, and every non-empty piece such an image yields is stored; an unreadable folder gives no information |
| ImageAnalyzer.NoListing | SmartNoteProcessor/utils/image_analyzer.py:194-221 | an unreadable folder leaves every topic with an empty map |
| ImageAnalyzer.AnalyzedEntries | SmartNoteProcessor/utils/image_analyzer.py:199-215 | every description stored under topic `k` for image `f` is the non-empty text that `f` yielded for `k` |
| ImageAnalyzer.AnalyzedComplete | SmartNoteProcessor/utils/image_analyzer.py:199-215 | every non-empty description a listed image yields is stored under its topic, since parsed ids are topic ids and no KeyError arises |
| DocumentProcessor.ReaderFor | SmartNoteProcessor/utils/document_processor.py:53-63 | an unknown extension is refused with "Unsupported file format: " and the lower-cased extension |
| DocumentProcessor.ReaderForKnownExtensions | SmartNoteProcessor/utils/document_processor.py:53-63 | a file is read exactly when its lower-cased extension is `.txt`, `.md`, `.pdf` or `.docx` |
| DocumentProcessor.PlainTextOf | SmartNoteProcessor/utils/document_processor.py:65-88 | a decoded text file is returned as it is; a failure becomes "Failed to read text file: " and the message |
| DocumentProcessor.ScanPages | SmartNoteProcessor/utils/document_processor.py:107-112 | the page loop completes exactly when every page's text could be extracted |
| DocumentProcessor.ScanStep | SmartNoteProcessor/utils/document_processor.py:110-112 | a readable page adds its text and a blank line before the rest; a failing page ends the loop there |
| DocumentProcessor.ScanStopsAtFailure | SmartNoteProcessor/utils/document_processor.py:107-117 | the text collected before a failing page is all there is; later pages are never read |
| DocumentProcessor.ScanLength | SmartNoteProcessor/utils/document_processor.py:110-112 | every page read adds its text and `\n\n`, so the text ends with a blank line and has at least two characters per page |
| DocumentProcessor.ReadPages | SmartNoteProcessor/utils/document_processor.py:103-117 | the page loop collects the specified text and reports whether it completed |
| DocumentProcessor.PdfFailsOnlyWhenBlank | SmartNoteProcessor/utils/document_processor.py:103-132 | PDF extraction fails, with its fixed message, exactly when the second library gives nothing and the first collected only whitespace |
| DocumentProcessor.PdfPrefersFirstLibrary | SmartNoteProcessor/utils/document_processor.py:106-116 | a complete first pass with more than 100 visible characters is returned, whatever the second library would say |
| DocumentProcessor.PdfPartialTextKept | SmartNoteProcessor/utils/document_processor.py:106-132 | text collected before a failing page is returned when the second library fails too |
| DocumentProcessor.PdfMinerEmptyAccepted | SmartNoteProcessor/utils/document_processor.py:121-124 | the second library's answer is returned even when empty: the blank check guards only the first library's text |
| DocumentProcessor.ExtractPdfText | SmartNoteProcessor/utils/document_processor.py:90-132 | the method's decision after the page loop is the specified PDF result |
| DocumentProcessor.LinesIsJoin | SmartNoteProcessor/utils/document_processor.py:152-155 | the DOCX text is the paragraphs joined by newlines with a final newline |
| DocumentProcessor.LinesSplit | SmartNoteProcessor/utils/document_processor.py:152-155 | splitting the DOCX text on newlines gives the paragraphs back, plus an empty last piece, when no paragraph holds a newline |
| DocumentProcessor.DocxTextOf | SmartNoteProcessor/utils/document_processor.py:134-158 | a missing library and a failing read give their fixed messages |
| DocumentProcessor.ExtractDocxText | SmartNoteProcessor/utils/document_processor.py:134-158 | the method's paragraph loop computes the specified DOCX result |
| DocumentProcessor.UnsupportedIgnoresLibraries | SmartNoteProcessor/utils/document_processor.py:53-63 | an unknown extension is refused before any library is consulted |
| DocumentProcessor.InfoExcerpt | SmartNoteProcessor/utils/document_processor.py:180 | the prompt quotes a prefix of the document of at most 50000 characters |
| DocumentProcessor.TopicInformation | SmartNoteProcessor/utils/document_processor.py:160-192 | the result is an answer with at least 50 visible characters, the "No detailed information found" message, or, when the client raised, the "Error extracting information" message with its text |
| DocumentProcessor.InformationReadsExcerpt | SmartNoteProcessor/utils/document_processor.py:174-183 | only the first 50000 characters of the document matter |
| DocumentProcessor.InformationKeepsAnswer | SmartNoteProcessor/utils/document_processor.py:183-189 | an answer with at least 50 visible characters is passed on unchanged |
| DocumentProcessor.FailureLacksMarker | SmartNoteProcessor/utils/document_processor.py:190-192 | the exception-path message lacks the `"Error:"` marker the orchestrator tests at orchestrator.py line 72 whenever the topic name and the exception text hold no colon, so such a failure is enhanced as if it were information |
| AppHelpers.UploadFields | SmartNoteProcessor/app.py:222-223 | the title and type exist exactly when the file name holds a dot; otherwise `rsplit('.', 1)[1]` raises |
| AppHelpers.RSplitAtLastDot | SmartNoteProcessor/app.py:222-223 | splitting at the last dot gives back the stem and a dot-free extension |
| AppHelpers.AllowedFileSpec | SmartNoteProcessor/app.py:52-55 | a name is accepted exactly when its lower-cased last extension is txt, pdf, docx or md, never without a dot |
| AppHelpers.UpdatedStored | SmartNoteProcessor/app.py:310-315 | visiting a stored topic id refreshes its one row in place with the new name and description |
| AppHelpers.UpdatedUnstored | SmartNoteProcessor/app.py:310-324 | visiting an id that is not stored changes no stored row |
| AppHelpers.VisitTopics | SmartNoteProcessor/app.py:310-324 | the first loop refreshes the stored rows it visits and collects the new rows as specified |
| AppHelpers.RemoveStale | SmartNoteProcessor/app.py:326-329 | the second loop deletes exactly the rows whose id is no longer a topic |
| AppHelpers.ReconcileTopics | SmartNoteProcessor/app.py:304-332 | the reconciliation loops leave the specified topic table |
| AppHelpers.DistinctAppend | SmartNoteProcessor/app.py:304-332 | two tables with distinct ids and no shared id join into one with distinct ids |
| AppHelpers.SurvivingIds | SmartNoteProcessor/app.py:326-329 | deletion keeps exactly the stored ids that are still topics, in storage order, adding no duplicate |
| AppHelpers.NewRowsSpec | SmartNoteProcessor/app.py:316-324 | the added rows carry exactly the topic ids not stored before, each once, with fresh keys and the topic's name and description |
| AppHelpers.UpdatedIds | SmartNoteProcessor/app.py:310-315 | refreshing rows in place keeps their ids and so keeps them distinct |
| AppHelpers.ReconciledIds | SmartNoteProcessor/app.py:304-332 | after reconciliation the stored topic ids are exactly the new dictionary's keys, each stored once |
| AppHelpers.ReconciledRows | SmartNoteProcessor/app.py:304-332 | every row holds its topic's current name and description; a stored row whose id is still a topic stays with its key; every other row is new |
| AppHelpers.FirstUngenerated | SmartNoteProcessor/app.py:370-387 | there is no topic to process exactly when every topic has a note; otherwise it is the first topic, in dictionary order, without one |
| AppHelpers.ChooseTopic | SmartNoteProcessor/app.py:370-376 | the loop picks the first topic without a generated note |
| AppHelpers.RemainingSpec | SmartNoteProcessor/app.py:621-625 | the reported count is the topics still without a note minus the notes kept for topics that are gone |
| AppHelpers.StaleRemaining | SmartNoteProcessor/app.py:621-625 | with notes kept from an earlier topic split, the count after generating a topic is not positive although a topic is still without a note |
| AppHelpers.PendingSpec | SmartNoteProcessor/app.py:621-625 | the intended count is positive exactly when a topic is left, drops by one per generated topic, and equals the reported count while no note is stale |
| AppHelpers.PendingNext | SmartNoteProcessor/app.py:621-625 | a topic is left exactly when the intended count is positive |
| AppHelpers.PendingStep | SmartNoteProcessor/app.py:621-625 | generating the chosen topic lowers the intended count by one |
| AppHelpers.PendingAgrees | SmartNoteProcessor/app.py:621-625 | without stale notes the reported count is the intended one |
| AppHelpers.SaveNoteSpec | SmartNoteProcessor/app.py:563-585 | the write never creates a second note for a `(topic, format)` pair, leaves the table alone for an unknown topic, and afterwards the note found for the topic holds the new content |
| AppHelpers.DownloadNameSpec | SmartNoteProcessor/app.py:657-663 | the download name is the note's name with spaces as underscores, followed by `.md`, `.html`, `.tex` or `.txt`; it has no space |
| AppHelpers.LoadNotes | SmartNoteProcessor/app.py:107-119 | the nested loops fill `notes_data` as specified |
| AppHelpers.LoadedNotesSpec | SmartNoteProcessor/app.py:107-119 | with one row per topic id, a topic is shown exactly when it has a stored note, and then with the first of them |

## Left out

- Text.Lower: lower-cases ASCII letters only. Python's `str.lower()` applies the full Unicode mapping, so `"É"` or the Kelvin sign are left alone here while Python lowers them. Every member built on it inherits the gap: `Hyperlinks.FormatOf`, `DocumentProcessor.Extension`, `AppHelpers.AllowedFile`, `AppHelpers.UploadFields`, `ImageAnalyzer.IsImageName` and `GeminiClient.IsQuotaError`.
- TopicExtractor.WordSet: inherits the ASCII-only lower-casing, so `"Économie"` and `"économie"` count as different words here while Python relates the two topics.
- IsNumberedItem: `Inline.IsNumberedItem` and `Inline.DigitRun` read `\d` as the ASCII digits `0`-`9`. Python's `\d` matches every Unicode decimal digit, so a line such as `"٣. item"` is a list item in Python and a paragraph here.
- Expand: `Hyperlinks.Expand` models the replacement-template escapes `\\`, the one-letter escapes and the `bad escape` error. It rejects every `\g` and digit escape with one generic "invalid group reference" message. Python instead accepts `\0`, three-digit octal escapes and `\g<0>`, names the group in its message, and adds the line and column for templates spanning lines. Only names that hold a backslash are affected.
- NotesOf: `Note.query.filter_by(...).all()` has no `ORDER BY`. The model lists rows in storage order; SQL does not promise any order without it.
- AppHelpers.UploadFields: it applies to the name it is given. In `upload_file` that is the name after `secure_filename` (app.py line 145), which is not modelled: it replaces spaces and drops non-ASCII characters, so "my notes.TXT" is stored under the title "my_notes" and "名前.txt" is secured to "txt", on which the title and type lines raise.
- Hyperlinks.AddHyperlinks: the pass is modelled with the corrected LaTeX template (see Findings). As written, `add_hyperlinks` raises "bad escape \h at position 0" at the first LaTeX note that has a candidate name, whether or not the name occurs; `Hyperlinks.LatexRewriteFails` states this for one `re.sub`, and the pass-level consequence is not proved. `Hyperlinks.LinkNote`, `Hyperlinks.LinkLoop` and `Hyperlinks.RewriteAll` follow the corrected template too.
- Hyperlinks.NoOccurrenceUnchanged: holds of the corrected template. For LaTeX the source as written raises even when no name occurs.
- Orchestrator.ProcessAndGenerate: runs the hyperlink pass with the corrected LaTeX template, so a LaTeX run is linked where the source records "Error adding internal links" with the bad-escape message. `Orchestrator.AddLinks` is the same.
- Orchestrator.TopicOutcome: the injected `extract(name)` stands for `extract_topic_information(combined_content, name, client)` with the document content fixed for the run. It is not wired to `DocumentProcessor.TopicInformation` or `GeminiClient.Generate`, whose own properties are proved separately.
- Orchestrator.TopicOutcome: a failing `db.session.commit()` in the topic loop (rollback plus an "Error processing topic" entry) is not modelled. The commit of the hyperlink pass is not modelled as a failure source either; only `add_hyperlinks` can fail there.
- Orchestrator.TopicOutcome: the collaborators return strings or raise. A non-string result such as `None`, which would make `enhanced_info + ""` raise, is not representable.
- Orchestrator.TopicOutcome: topic data always carries a name. The `get('name', f"Topic {id}")` default of the topic loop and of the index page is not modelled.
- TopicExtractor.Related: Python compares the float quotient `|A ∩ B| / |A ∪ B|` with `0.1`. The model uses the exact integer test `10·|A ∩ B| > |A ∪ B|`, which agrees with the float test for any realistic number of words.
- TopicExtractor.ExtractTopics: the level is an integer. The `int(granularity)` conversion and the exception it can raise are not modelled.
- GeminiClient.Generate: rate limiting, `time.time()`, the sleeps and the `last_request_time` field are not modelled. The prompts' wording and the `genai` calls are replaced by the sequence of request outcomes `api`.
- ImageAnalyzer.ExtractInfo: `_encode_image` (resizing, RGB conversion, JPEG and base64 encoding) is an input, `encoded`. The vision model is a function `respond`, and the prompt listing the topic names is not modelled.
- ImageAnalyzer.ParseVision and GeminiClient.ParseTopics: `json.loads` is an input function that yields the decoded items, or nothing when decoding fails.
- DocumentProcessor.ExtractText: file reading, PDF and DOCX libraries are inputs: the decoded text, each page's outcome, the fallback library's outcome and the paragraphs. Logging is not modelled.
- AppHelpers: only the helpers are modelled. Flask routing, templates, `flash`, sessions and the `sessions_data` dictionary, `send_file` and zip packaging, and PyMuPDF image extraction at upload are out. The rest of `generate_notes` (its own extract, enhance and convert calls and its hyperlink step) repeats the orchestrator's pattern and is out.
- Store: the SQLAlchemy models and sessions are a sequence of rows. `updated_at` timestamps are not modelled, and neither are transactions beyond the rollback of a failed hyperlink pass.
- The `openrouter_client.py` function, the wrappers around the `OpenRouterClient` class that does not exist, `database.py` and `gunicorn_config.py` are not part of this model.
- Strings are sequences of Unicode code points. No encoding, normalisation or case folding is modelled beyond the above.

## Findings

| source | as written | input that shows it | evidently intended | confidence | as-written member | corrected member |
|---|---|---|---|---|---|---|
| SmartNoteProcessor/utils/format_converter.py:416-421 | the LaTeX replacement template starts with `\hyperref`, which `re.sub` reads as the unknown escape `\h` and rejects | any LaTeX note together with another topic whose name has at least four characters: the first `re.sub` of `add_hyperlinks` for that name raises "bad escape \h at position 0", whatever the note holds | the backslash doubled in the template, so that every occurrence of the name becomes `\hyperref[stem]{name}` | not executed | Hyperlinks.LatexRewriteFails | Hyperlinks.IntendedLatexRewrite |
| SmartNoteProcessor/app.py:621-625 | `remaining = len(topics_dict) - len(previously_generated)` counts notes kept from an earlier topic split (update_granularity at app.py lines 298-301 replaces the topics but keeps the generated notes) | topics `{a, b}` after a granularity change, with notes for `x`, `y`, `z` kept from before: generating `a` gives remaining -2 and "All notes generated successfully!", although `b` has no note | the count of current topics without a note, which is positive exactly when another topic remains | not executed | AppHelpers.StaleRemaining | AppHelpers.PendingSpec |

The hyperlink pass of the model, and so the orchestrator, uses the corrected template: `Hyperlinks.Rewrite` expands `Hyperlinks.IntendedReplacement`, whose LaTeX template has the backslash doubled. `Hyperlinks.WrittenRewrite` keeps the template exactly as the source builds it (`Hyperlinks.Replacement`), and `Hyperlinks.LatexRewriteFails` shows what it does. For the progress count, `AppHelpers.Remaining` is the source's count and `AppHelpers.Pending` the intended one; `AppHelpers.StaleRemaining` relates the two.
