# Translating decks and notebooks through DeepL — a verified model

`translate_ppt_deepl_app.py` is a Streamlit page that translates PowerPoint decks and Jupyter notebooks with DeepL, from French into a chosen English variant:

- **Decks** are translated run by run. A run's text is overwritten with its translation and its character formatting is left alone. Tables are included, and so are the speaker notes when the user asks for them. A legacy `.ppt` deck is converted to `.pptx` first.
- **Notebooks** have two kinds of text translated. A markdown cell is translated as a whole. In a code cell, only the `#` comments are translated: each comment's translation is spliced back into the source at the offsets where the comment was found.

This project models the deterministic core of that page in Dafny and proves what it does:

- the comment scanner;
- the collection of the texts to translate;
- the cutting of that list into batches of 45;
- the request body of one batch and what happens to the reply;
- the write-back into runs and cells;
- the choice of endpoint and the output file names.

Imperative parts of the source are modelled imperatively:

- the scanner's loop;
- the collection loops;
- the batch loops, which assign `run.text` in place;
- the write-back loop over the notebook's cells, an `array`.

Each such method is proved against a specification function, and the properties are proved about that function.

| file | module | what it models |
|---|---|---|
| `wrappers.dfy` | `Wrappers` | `Option` and `Result` |
| `strings.dfy` | `PyStr` | the Python string operations the page uses (below) |
| `comments.dfy` | `CommentScan` | `extract_comments_from_code`, and the span it evidently means to record |
| `deepl.dfy` | `DeepL` | endpoint selection, the form body of a request, `deepl_translate_batch` with the HTTP service as a parameter |
| `batching.dfy` | `Batching` | `BATCH_SIZE`, `range(0, n, BATCH_SIZE)` slicing, the notebook's translation loop |
| `files.dfy` | `FileNames` | `PurePath` suffix and stem, the `.ppt` test, the output names |
| `notebook.dfy` | `Notebook` | collection of the units, the write-back loop, `process_jupyter_notebook`, and the two write-back findings |
| `slides.dfy` | `Slides` | runs as objects, `iter_text_frames`, run collection, the per-batch write-back, `process_powerpoint_file` |

The Python string operations modelled in `PyStr` are:

- `str.strip()`, using Python's exact set of whitespace characters;
- `find` and `rfind`;
- `split('\n')`;
- `endswith` and `in`;
- `lower`;
- slices, which Python clamps to the string's length.

## Model

| member | source | states |
|---|---|---|
| CommentScan.ExtractComments | translate_ppt_deepl_app.py:223-238 | the scanner's loop returns exactly `CommentsOf(code)`: the comments of the lines in line order |
| CommentScan.Scan | translate_ppt_deepl_app.py:227-237 | the comments of the first n lines, each line adding what `LineComment` finds on it: at most one comment per line |
| CommentScan.CommentsOf | translate_ppt_deepl_app.py:226-237 | the comments of a whole cell, scanning every line of `split('\n')`: no more comments than lines |
| CommentScan.LineComment | translate_ppt_deepl_app.py:229-237 | a comment found on a line is non-empty, its span starts after the line's start and lies within the line, and `end == start + len(text)` |
| CommentScan.LineCommentShape | translate_ppt_deepl_app.py:229-236 | a line emits a comment iff it has a '#' and something other than whitespace after its first '#'; the text is the stripped tail after that '#', and `start` is the line offset plus `find('#') + 1` |
| CommentScan.ScanFromLines | translate_ppt_deepl_app.py:227-237 | a comment is in the scan of the first n lines iff one of those lines emits it |
| CommentScan.ScanSound | translate_ppt_deepl_app.py:227-237 | every scanned comment is emitted by some earlier line |
| CommentScan.ScanComplete | translate_ppt_deepl_app.py:227-237 | every comment an earlier line emits is in the scan |
| CommentScan.CommentsFromLines | translate_ppt_deepl_app.py:226-237 | the comments of a cell are exactly those its `split('\n')` lines emit |
| CommentScan.ScanOrdered | translate_ppt_deepl_app.py:227-237 | each comment ends before the next one starts, and before the start of the next unscanned line |
| CommentScan.CommentsInOrder | translate_ppt_deepl_app.py:226-237 | the comments are in line order: the `end` of each comment is less than the `start` of the next, so the starts strictly increase (at most one comment per line is stated by `Scan`) |
| CommentScan.LineAt | translate_ppt_deepl_app.py:226-235 | `sum(len(lines[j]) + 1 for j in range(i))` is where line i sits in the joined text, followed by '\n' unless it is the last line |
| CommentScan.LineStartShift | translate_ppt_deepl_app.py:235 | the offset of line i + 1 is the offset of line i in the lines after the first, plus the first line's length and one |
| CommentScan.CommentLine | translate_ppt_deepl_app.py:226-236 | every comment comes from a '\n'-free line of the source with its '#' at `find('#')`, its text the stripped tail, and `start = offset + find('#') + 1` |
| CommentScan.CommentSpan | translate_ppt_deepl_app.py:229-236 | every span satisfies `0 < start <= end <= len(code)`, `code[start-1] == '#'`, no '\n' inside, `end == start + len(text)`, a stripped non-empty text, and `code[start:end] == text` iff the character after '#' is not whitespace |
| CommentScan.LineSpan | translate_ppt_deepl_app.py:229-236 | the facts of `CommentSpan` for a comment found after the '#' at index k of a line at a given offset |
| CommentScan.TailSpan | translate_ppt_deepl_app.py:232-236 | the same facts for the tail of a line after its '#' |
| CommentScan.ShiftedLineComment | translate_ppt_deepl_app.py:232-236 | the corrected span: it lies in the line and holds exactly the comment's text |
| CommentScan.ShiftedAgrees | translate_ppt_deepl_app.py:232-236 | the corrected scanner emits on the same lines with the same text, moved right by the whitespace after '#' |
| DeepL.Endpoint | translate_ppt_deepl_app.py:49-56 | a non-empty `DEEPL_API_URL` wins; otherwise one of the two DeepL endpoints |
| DeepL.IsFreeKey | translate_ppt_deepl_app.py:53 | the free-key test `key.endswith(":fx") or "-free" in key`; `EndpointByKey` states it character by character |
| DeepL.EndpointByKey | translate_ppt_deepl_app.py:52-56 | without an override: the free URL iff the key ends with ":fx" or contains "-free", otherwise the paid URL |
| DeepL.EndpointExamples | translate_ppt_deepl_app.py:49-56 | ":fx" and "-free" keys pick the free endpoint, another key the paid one, an empty override is ignored, a set override wins |
| DeepL.Payload | translate_ppt_deepl_app.py:65-71 | the request body is `auth_key`, `source_lang`, `target_lang` and `preserve_formatting` = "1", in that order, followed by one `text` field per text in the order of the texts |
| DeepL.PayloadValues | translate_ppt_deepl_app.py:65-71 | for any field name, the values of the body are the setting with that name followed by the texts when the name is `text` |
| DeepL.PayloadRoundTrip | translate_ppt_deepl_app.py:65-71 | decoding the body gives back each setting once, `preserve_formatting` = "1", and the texts in order |
| DeepL.ValuesConcat | translate_ppt_deepl_app.py:65-71 | decoding a concatenated body concatenates the decoded values |
| DeepL.TextFieldValues | translate_ppt_deepl_app.py:71 | the `text` fields decode to the texts, and to nothing under any other name |
| DeepL.SettingsValues | translate_ppt_deepl_app.py:65-70 | each of the four settings decodes once under its own name |
| DeepL.BatchRequest | translate_ppt_deepl_app.py:65-75 | the request goes to the configured URL and carries the texts, in order, as its `text` fields |
| DeepL.ReadReply | translate_ppt_deepl_app.py:76-85 | an answer without `translations` gives no translation; an answer with items gives one translation per item, its `text` or ""; an HTTP error gives the API error with its status and body; any other failure gives the connection error |
| DeepL.TranslateBatch | translate_ppt_deepl_app.py:61-85 | an empty list of texts is answered with `[]`; the non-empty cases are stated by `TranslateBatchReplies` |
| DeepL.TranslateBatchReplies | translate_ppt_deepl_app.py:61-85 | for a non-empty batch, each kind of reply to its one request ends as `ReadReply` says: `[]`, `len(items)` translations, the API error with the status and body, or the connection error |
| DeepL.EmptyBatchSendsNothing | translate_ppt_deepl_app.py:62-63 | an empty batch gives `[]` whatever the service would answer, so no request is made |
| DeepL.BatchAnswersEach | translate_ppt_deepl_app.py:61-79 | against a service that translates each text it receives, translation i is that of text i |
| Batching.Batch | translate_ppt_deepl_app.py:181-182 | a batch holds 1 to 45 texts |
| Batching.BatchesSplit | translate_ppt_deepl_app.py:181-182 | the batches concatenate to the list, number `ceil(n / 45)`, hold 1 to 45 texts each, and batch j is `xs[45j : 45j + 45]` |
| Batching.BatchesFromStep | translate_ppt_deepl_app.py:181-182 | the batches from a start are the batch there followed by the batches from the next start |
| Batching.BatchesFromConcat | translate_ppt_deepl_app.py:181-182 | the batches from a start concatenate to the rest of the list |
| Batching.BatchesFromCount | translate_ppt_deepl_app.py:181 | there are `ceil((n - from) / 45)` batches from `from` |
| Batching.BatchesFromAt | translate_ppt_deepl_app.py:181-182 | batch j from `from` is the slice at `from + 45j` |
| Batching.BatchesExamples | translate_ppt_deepl_app.py:181-182 | 46 texts make batches of 45 and 1, 45 texts make one batch, and no texts make no batch |
| Batching.TranslateAll | translate_ppt_deepl_app.py:266-273 | the notebook's loop ends with `TranslateFrom` of the whole list: all translations concatenated, or the first failed batch's error |
| Batching.TranslateFrom | translate_ppt_deepl_app.py:268-271 | the loop from `start = from` on: the batches' translations concatenated, or the error of the first batch that fails, after which no batch is sent |
| Batching.TranslateFromBatches | translate_ppt_deepl_app.py:268-271 | the loop sends exactly the batches `BatchesFrom` cuts, one request each, in order; with `BatchesSplit`, no request carries more than 45 texts |
| Batching.TranslateFromInFull | translate_ppt_deepl_app.py:268-276 | against a service that answers every batch in full, the loop succeeds with one translation per text |
| Batching.TranslateFromEach | translate_ppt_deepl_app.py:268-271 | against a service that translates each text, translation i of the loop is that of text i, batches notwithstanding |
| Batching.TranslateAllEach | translate_ppt_deepl_app.py:268-276 | the same for the whole list |
| FileNames.SuffixStart | translate_ppt_deepl_app.py:111 | a suffix starts at the last '.', unless that dot is first or last in the name; otherwise there is no suffix |
| FileNames.Suffix | translate_ppt_deepl_app.py:111 | `PurePath(name).suffix` is a tail of the name, from `SuffixStart` on |
| FileNames.Stem | translate_ppt_deepl_app.py:190 | the stem is a head of the name, up to `SuffixStart` |
| FileNames.IsLegacyPpt | translate_ppt_deepl_app.py:111 | `in_path.suffix.lower() == ".ppt"` |
| FileNames.LegacyPptIff | translate_ppt_deepl_app.py:111 | for every name: the test holds iff the name has at least 5 characters, a '.' fourth from the end, and last three characters that lower to "ppt" |
| FileNames.StemSuffix | translate_ppt_deepl_app.py:111 | a name is its stem followed by its suffix; a suffix is empty or '.' followed by one or more characters other than '.' |
| FileNames.StemOfExtended | translate_ppt_deepl_app.py:190 | `stem + "." + ext` splits back into that stem and `"." + ext` |
| FileNames.NoSuffix | translate_ppt_deepl_app.py:111 | a name without a dot after its first character has no suffix |
| FileNames.LegacyPptAnyCase | translate_ppt_deepl_app.py:111 | "cours.ppt" and "TP.PPT" are both legacy decks: the test ignores case |
| FileNames.LegacyPptRejects | translate_ppt_deepl_app.py:111 | "cours.pptx" and ".ppt" are not |
| FileNames.OutputName | translate_ppt_deepl_app.py:190-191 | the output name ends with `_EN.` and the extension, and is the stem's length plus 4 plus the extension's length long |
| FileNames.OutputNameParts | translate_ppt_deepl_app.py:190-191 | the output's suffix is the extension and its stem is the input's stem followed by `_EN` |
| FileNames.OutputNameReplaces | translate_ppt_deepl_app.py:291-292 | only the last extension is replaced: "tp.v2.ipynb" becomes "tp.v2_EN.ipynb" |
| FileNames.OutputNameDotFirst | translate_ppt_deepl_app.py:190-191 | ".pptx" has no suffix, so it becomes ".pptx_EN.pptx" |
| Notebook.CollectUnits | translate_ppt_deepl_app.py:241-255 | the collection loop ends with exactly the texts and references `NotebookTexts`/`NotebookRefs` describe |
| Notebook.NotebookTexts | translate_ppt_deepl_app.py:241-255 | the texts the collection loop appends, cell by cell |
| Notebook.NotebookRefs | translate_ppt_deepl_app.py:241-255 | the references it appends, cell by cell, one per text (`UnitsAligned`) |
| Notebook.AppendComments | translate_ppt_deepl_app.py:252-255 | the inner loop appends the text and reference of every comment that is not blank |
| Notebook.UnitsAligned | translate_ppt_deepl_app.py:241-255 | there is one reference per text |
| Notebook.CommentUnitsAligned | translate_ppt_deepl_app.py:252-255 | the same within one code cell |
| Notebook.MarkdownUnit | translate_ppt_deepl_app.py:242-246 | a markdown cell gives one unit, its whole source, iff that source is not all whitespace; a raw cell gives none |
| Notebook.CodeCellUnits | translate_ppt_deepl_app.py:248-255 | a non-empty code cell gives one unit per scanned comment, in order, with its text and span; the `strip()` filter drops none |
| Notebook.CommentTextsAll | translate_ppt_deepl_app.py:252-254 | comments that are not blank each give their text, in order |
| Notebook.CommentRefsAll | translate_ppt_deepl_app.py:252-255 | and each gives a reference with its span |
| Notebook.RefsFit | translate_ppt_deepl_app.py:241-255 | every reference points at a cell of the right type, and a comment's span lies inside that cell's source |
| Notebook.CommentRefsFit | translate_ppt_deepl_app.py:248-255 | the same for the comments of one code cell |
| Notebook.Splice | translate_ppt_deepl_app.py:287 | `orig[:s] + t + orig[e:]` keeps `orig[:s]` as prefix, puts `t` at s, keeps `orig[e:]` as suffix, has length `len(orig) - (e - s) + len(t)`, and clamps past-the-end bounds |
| Notebook.ApplyOne | translate_ppt_deepl_app.py:277-288 | one write-back step keeps the number of cells |
| Notebook.Applied | translate_ppt_deepl_app.py:276-288 | writing back the first n pairs keeps the number of cells |
| Notebook.ApplyTranslations | translate_ppt_deepl_app.py:276-288 | the in-place loop over `zip(text_refs, translated)` leaves the cells as `Applied` of the shorter length |
| Notebook.AppliedUntouched | translate_ppt_deepl_app.py:276-288 | no cell changes type, and a cell no reference points at is unchanged |
| Notebook.AppliedOtherCell | translate_ppt_deepl_app.py:276-288 | a write-back step leaves every other cell as it was |
| Notebook.AppliedMarkdown | translate_ppt_deepl_app.py:277-279 | a markdown cell ends with the translation of the last reference to it |
| Notebook.AppliedMarkdownStep | translate_ppt_deepl_app.py:277-279 | a markdown step sets the whole source to the translation |
| Notebook.AppliedCommentStep | translate_ppt_deepl_app.py:280-288 | a comment step splices into the source the cell has now |
| Notebook.AppliedSingleComment | translate_ppt_deepl_app.py:280-288 | a code cell with one reference ends with that splice applied to its original source |
| Notebook.AppliedSameCell | translate_ppt_deepl_app.py:276-288 | with every reference in one code cell, the cell ends with the splices applied one after another in reference order |
| Notebook.TranslateNotebook | translate_ppt_deepl_app.py:220-292 | no units: nothing changes; a failed batch: the error is reported and nothing changes; otherwise the cells are written back and saved as `stem_EN.ipynb` |
| Notebook.SpanStartsAtSpace | translate_ppt_deepl_app.py:232-287 | finding 1: "# x" records [1, 2), which holds the space, so "y" is written back as "#yx"; the corrected span [2, 3) gives "# y" |
| Notebook.LineCommentSpaceX | translate_ppt_deepl_app.py:229-236 | "# x" emits "x" at [1, 2) as written and at [2, 3) corrected |
| Notebook.CommentsOfSpaceX | translate_ppt_deepl_app.py:223-238 | the scan of "# x" is the one comment "x" at [1, 2) |
| Notebook.SpliceSpaceX | translate_ppt_deepl_app.py:287 | the spliced results for "# x" |
| Notebook.SpliceDescendingRebuilds | translate_ppt_deepl_app.py:280-288 | applying ordered splices from last to first replaces each span of the original source by its translation |
| Notebook.SpliceDescendingAppend | translate_ppt_deepl_app.py:287 | splices inside x leave what follows x alone |
| Notebook.CellSpansOrdered | translate_ppt_deepl_app.py:226-237 | a cell's comment spans lie in its source, in order, without overlap |
| Notebook.DescendingWriteBack | translate_ppt_deepl_app.py:276-288 | finding 2, corrected: spliced from the last comment to the first, every recorded span is replaced by its own translation, whatever the lengths |
| Notebook.AscendingSplicesDrift | translate_ppt_deepl_app.py:276-288 | finding 2, as written: "#a\n#b" with translations "xy" and "z" ends up as "#xy\nzb" |
| Notebook.RebuiltTwoLines | translate_ppt_deepl_app.py:276-288 | the intended result for that cell is "#xy\n#z" |
| Notebook.RefsTwoLines | translate_ppt_deepl_app.py:248-255 | the cell "#a\n#b" gives the references [1, 2) and [4, 5) |
| Notebook.CommentsOfTwoLines | translate_ppt_deepl_app.py:223-238 | the scan of "#a\n#b" is "a" at [1, 2) and "b" at [4, 5) |
| Notebook.AscendingTwoLines | translate_ppt_deepl_app.py:287 | splicing in reference order gives "#xy\nzb" |
| Notebook.DescendingTwoLines | translate_ppt_deepl_app.py:287 | splicing in reverse order gives "#xy\n#z" |
| Notebook.SingleCodeCellRefs | translate_ppt_deepl_app.py:248-255 | a one-cell notebook refers to that cell's kept comments |
| Slides.Run.constructor | translate_ppt_deepl_app.py:155-156 | a run holds its text and its formatting |
| Slides.CellFrames | translate_ppt_deepl_app.py:135-137 | a frame is yielded exactly when some cell of the row holds it (cells whose `text_frame` is `None` are skipped), and a row whose cells all have a frame yields all of them, in cell order |
| Slides.CellFramesConcat | translate_ppt_deepl_app.py:135-137 | the frames of two runs of cells side by side are those of the first followed by those of the second |
| Slides.RowFrames | translate_ppt_deepl_app.py:134-137 | a readable table's frames, row by row and within a row cell by cell |
| Slides.Frames | translate_ppt_deepl_app.py:124-145 | `iter_text_frames`: a group yields its members' frames, a readable table its cells' frames, an unreadable table the cells read so far and then its own frame, any other shape its own frame if it has one |
| Slides.FramesOfAll | translate_ppt_deepl_app.py:126-128 | the frames of a list of shapes, shape by shape |
| Slides.GroupTransparent | translate_ppt_deepl_app.py:126-129 | a group yields its members' frames in order, and a group nested among shapes yields as if its members stood in its place |
| Slides.TableFrames | translate_ppt_deepl_app.py:132-145 | a readable table yields its cells' frames and never its own; an unreadable one yields the cells read so far, then its own frame; another shape yields its frame if it has one |
| Slides.FramesOfAllConcat | translate_ppt_deepl_app.py:126-128 | the frames of concatenated shape lists concatenate |
| Slides.NotesNotRecursive | translate_ppt_deepl_app.py:164-165 | a group on the notes page contributes nothing, and a table there contributes its own frame only, never its cells' frames |
| Slides.NotesFrames | translate_ppt_deepl_app.py:161-165 | the frames of the notes page, in shape order, read one level deep: at most one frame per shape |
| Slides.ShapeRunsFrames | translate_ppt_deepl_app.py:152-155 | a slide's runs are the runs of its shapes' frames, in `iter_text_frames` order |
| Slides.FrameRunsConcat | translate_ppt_deepl_app.py:153-155 | runs of concatenated frame lists concatenate |
| Slides.KeptConcat | translate_ppt_deepl_app.py:151-170 | the filter distributes over concatenation |
| Slides.KeptExactly | translate_ppt_deepl_app.py:151-170 | a run is kept iff it was visited and its text is not blank; no more runs are kept than visited |
| Slides.KeptDistinct | translate_ppt_deepl_app.py:157-158 | distinct visited runs give distinct kept runs |
| Slides.NotesExcluded | translate_ppt_deepl_app.py:161-170 | without notes, a slide's runs are those of its shapes and the notes page is not read |
| Slides.DeckRuns | translate_ppt_deepl_app.py:151-170 | every run the collection loops visit, slide by slide: a slide's shapes, then its notes when they are included |
| Slides.Kept | translate_ppt_deepl_app.py:155-158 | the visited runs whose text is not blank, in the order visited |
| Slides.Zipped | translate_ppt_deepl_app.py:185 | `zip(batch_refs, translated)` pairs one update with each run of the batch |
| Slides.PlanFrom | translate_ppt_deepl_app.py:181-186 | the plan has one update per remaining run |
| Slides.PlanFromBatches | translate_ppt_deepl_app.py:181-186 | the deck's loop sends exactly the batches `BatchesFrom` cuts, one request each, in order; with `BatchesSplit`, no request carries more than 45 texts |
| Slides.PlanStep | translate_ppt_deepl_app.py:181-186 | a failed batch stops everything with its error; an answered batch is zipped and the loop goes on |
| Slides.WriteBatch | translate_ppt_deepl_app.py:185-186 | the zip of one batch sets `run.text` for the paired runs only, and no format changes |
| Slides.WrittenNone | translate_ppt_deepl_app.py:185-186 | empty updates change no run |
| Slides.Finished | translate_ppt_deepl_app.py:181-186 | after the last batch, each run holds its new text and its old formatting |
| Slides.TranslateRuns | translate_ppt_deepl_app.py:180-187 | each run ends with its text as the plan says, every run keeps its formatting, and a failed batch's error is reported |
| Slides.PlanFromEach | translate_ppt_deepl_app.py:181-186 | against a service that translates each text, run i gets the translation of text i and nothing fails |
| Slides.PlanFromMute | translate_ppt_deepl_app.py:78-79 | a reply without `translations` changes no run and reports no error |
| Slides.PlanFromRejected | translate_ppt_deepl_app.py:80-85 | a service that answers with an HTTP error stops at the first batch and no run changes |
| Slides.TranslateDeck | translate_ppt_deepl_app.py:111-191 | the deck stops with `ConversionFailed` exactly when it is a legacy `.ppt` and its conversion failed; otherwise `NoText` exactly when no run is kept; otherwise the kept runs take the plan's texts, a failed batch is reported, no formatting changes, and the deck is saved as `stem_EN.pptx` of the file actually read |
| PyStr.Find | translate_ppt_deepl_app.py:231 | `find` gives -1 when the character is absent, otherwise an index holding it |
| PyStr.FindFirst | translate_ppt_deepl_app.py:231 | and no earlier index holds it |
| PyStr.RFind | translate_ppt_deepl_app.py:111 | `rfind` gives the last index holding the character, or -1 |
| PyStr.Split | translate_ppt_deepl_app.py:226 | `split` gives at least one piece |
| PyStr.SplitJoin | translate_ppt_deepl_app.py:226-235 | the pieces contain no separator and join back to the string |
| PyStr.SplitLacks | translate_ppt_deepl_app.py:226 | the pieces contain no separator |
| PyStr.JoinSplit | translate_ppt_deepl_app.py:226-235 | the pieces join back to the string |
| PyStr.Join | translate_ppt_deepl_app.py:226 | `sep.join(pieces)`, the inverse of `split` that `SplitJoin` and `JoinSplit` are stated with |
| PyStr.StripShape | translate_ppt_deepl_app.py:232 | `strip()` is the slice of the string between its leading and its trailing whitespace, and what it removes at both ends is whitespace and only whitespace; it is empty iff the string is all whitespace, and otherwise starts and ends with non-whitespace |
| PyStr.Strip | translate_ppt_deepl_app.py:232 | `str.strip()`: Python whitespace, and only whitespace, removed from both ends; `StripShape` and `StripRemovesSpace` state what it gives |
| PyStr.StripEmpty | translate_ppt_deepl_app.py:244 | `strip()` is empty iff the string is all whitespace |
| PyStr.StripSlice | translate_ppt_deepl_app.py:232 | `strip()` is the slice after the leading whitespace |
| PyStr.StripRemovesSpace | translate_ppt_deepl_app.py:232 | the characters before and after the slice `strip()` keeps are all whitespace |
| PyStr.StripEnds | translate_ppt_deepl_app.py:232 | a non-empty `strip()` starts and ends with non-whitespace |
| PyStr.StripPrefixIff | translate_ppt_deepl_app.py:232-235 | a non-empty `strip()` is a prefix of the string iff the string does not start with whitespace |
| PyStr.StripIdempotent | translate_ppt_deepl_app.py:232 | stripping twice is stripping once |
| PyStr.LeadingSpaceExact | translate_ppt_deepl_app.py:232 | the leading whitespace counted is all whitespace and is followed by non-whitespace |
| PyStr.TrailingSpaceExact | translate_ppt_deepl_app.py:232 | the same for the trailing whitespace |
| PyStr.Contains | translate_ppt_deepl_app.py:53 | `sub in s` iff `sub` occurs in `s` at some index |
| PyStr.EndsWith | translate_ppt_deepl_app.py:53 | `s.endswith(suffix)`: the last `len(suffix)` characters are `suffix` |
| PyStr.Lower | translate_ppt_deepl_app.py:111 | `lower()` keeps the length |
| PyStr.SliceTo | translate_ppt_deepl_app.py:287 | `s[:k]` is clamped to the string |
| PyStr.SliceFrom | translate_ppt_deepl_app.py:287 | `s[k:]` is empty past the end |

## Left out

- The Streamlit page is not modelled: uploads, radio buttons, messages, the progress bar (floating point), download and rerun buttons, and `st.stop`. `st.stop` after an error or an empty deck is modelled as the method returning an outcome.
- The HTTP call to DeepL is a parameter: a function from a request to a reply. Timeouts, `raise_for_status` and JSON decoding are folded into the reply's three cases.
- The error raised by `deepl_translate_batch` becomes a `Failure`, which the loops return at once.
- The LibreOffice conversion (`soffice`, globbing for the converted file) is a parameter of `Slides.TranslateDeck`: the converted name or the conversion's error.
- Reading and writing files, temporary directories, python-pptx and nbformat are not modelled. A deck is a sequence of `Slide` values whose runs are objects, and a notebook is an array of cells.
- The key and the endpoint are values passed in (`DeepL.Account`). The page's refusal to go on when `DEEPL_API_KEY` is empty is not modelled, and neither is the error shown when a notebook cannot be loaded.
- `Slides.TranslateDeck` visits the runs in the order the function `DeckRuns` gives. The source's nested loops over slides, shapes, frames, paragraphs and runs are one loop over that sequence here.
- `Slides.TranslateDeck` requires the visited runs to be distinct objects. Each run of the document is visited once by the source's loops, so this holds for the decks python-pptx loads.
- The `txt is not None` test on a run's text is not modelled, because a run's text is always a string here.
- Table reading failures (`ValueError`, `AttributeError`) are not raised. A table is either readable or `Unreadable`, which records the cells read before the failure.
- `PyStr.Lower` lowers ASCII letters only. That is enough for the `.ppt` test, which compares with an ASCII string.
- `Notebook.TranslateNotebook` and `Notebook.ApplyTranslations` do not state that unit i gets translation i when DeepL answers a batch with fewer translations than texts. The source's `zip` over the whole list then pairs later units with the wrong translations; the model follows the code and stops at the shorter list.
- `CommentScan.ExtractComments` calls the function `LineComment` for the body of its loop. The `if` statements of the loop body are stated once, in that function.

## Findings

| source | as written | input that shows it | evidently intended | confidence | as-written member | corrected member |
|---|---|---|---|---|---|---|
| translate_ppt_deepl_app.py:232-287 | the span starts right after '#', before the whitespace `strip()` removed, so it holds that whitespace and misses as many characters at the end of the comment | the cell "# x" with the translation "y" is written back as "#yx" | the span covers the comment text: [2, 3), giving "# y" | not executed | Notebook.SpanStartsAtSpace | CommentScan.ShiftedLineComment, CommentScan.ShiftedAgrees |
| translate_ppt_deepl_app.py:276-288 | comments of one cell are spliced in order into the source as already changed, so a translation of another length moves the later spans | the cell "#a\n#b" with translations "xy" and "z" becomes "#xy\nzb" | each recorded span of the original source is replaced: "#xy\n#z", which splicing from the last comment to the first gives | not executed | Notebook.AscendingSplicesDrift | Notebook.DescendingWriteBack |

Both corrected members are stated next to the as-written behaviour. `Notebook.TranslateNotebook` follows the code as written, spans and splice order included.
