# Work-procedures toolkit: a verified model of its core

The repository is a set of Streamlit pages that field technicians use. The
pages keep a manual of procedures, steps, parts and serial numbers. They
convert Word procedures to Markdown and place images under Markdown
headings. They answer questions about the procedures, and they write
service-call reports. This project models the logic of five of those files
in Dafny and proves what that logic promises. The model leaves out the
widgets, the files and the network around that logic.

| module | models | file |
|---|---|---|
| `ImagePlacer` | heading parsing, image insertion, image names from an archive, the image line and the download name | `pages/Image_Placer.py` |
| `DocxConvert` | paragraph and table rendering, document conversion, media extraction, download names | `pages/Convert_Docs.py` |
| `ChatImages` | configuration loading, direct image requests, step numbers and step images of an answer, chat history | `pages/ChatBotV2.py` |
| `CallReport` | the materials list, the language-model prompt, the fallback templates, the report and its file name | `pages/CallComplete.py` |
| `Manual` | the four tables and their inserts with their guards, step numbering and order, the category and text filter, the choice lists | `streamlit_app.py` |
| `Text`, `Seqs`, `Paths`, `Order`, `Results` | Python's string, list, `os.path` and string-ordering operations, plus `Option` and `Result` | (shared) |

The form of each part follows its source:
- Loops that build a list become methods with loop invariants. Each method
  is proved equal to a specification function. Examples are
  `parse_headings`, the archive-name loop, the paragraph level search,
  `table_to_markdown`, the conversion loop, the media loop, the keyword and
  step-image loops, and the materials list.
- The TinyDB tables are the fields of the class `Manual.ManualDb`. Their
  inserts are methods that state the whole new state.
- Everything else becomes functions, with lemmas about them.

Python strings are `seq<char>`. `isspace`, `isdigit` and `lower` are
restricted to ASCII. Calls to the language model and the vector store, file
contents and timestamps become parameters.

## Model

| member | source | states |
|---|---|---|
| ImagePlacer.HeadingAtSpec | pages/Image_Placer.py:36-40 | A line is a heading exactly when it starts with `#` after its leading whitespace. The level is the number of leading `#`: at least 1, with no upper bound. The text is the rest of the line, trimmed. |
| ImagePlacer.ParseHeadings | pages/Image_Placer.py:28-42 | The scanning loop returns the heading list that `Headings` specifies. |
| ImagePlacer.HeadingsSpec | pages/Image_Placer.py:35-41 | The heading list holds exactly one entry per heading line. It carries that line's index, is in line order, and holds nothing else. |
| ImagePlacer.HeadingsConcat | pages/Image_Placer.py:35-41 | Parsing two blocks of lines together gives the first block's headings, then the second block's headings moved down by the first block's length. |
| ImagePlacer.InsertImageAfterHeading | pages/Image_Placer.py:45-52 | The result is three lines longer. It holds a blank line, the image line and a blank line right after the heading line (clamped to the end as slicing clamps). Removing those three lines gives the input back. |
| ImagePlacer.ImageLineIsNoHeading | pages/Image_Placer.py:160 | An image line is never taken for a heading. |
| ImagePlacer.InsertKeepsHeadings | pages/Image_Placer.py:45-52 | Parsing again after an insertion finds the same headings, with the same levels and texts. Headings below the insertion point are exactly three lines further down. |
| ImagePlacer.ImagePath | pages/Image_Placer.py:159 | The path ends with `/` and the image name. What comes before is the prefix without its trailing slashes. |
| ImagePlacer.OutputName | pages/Image_Placer.py:172 | The name ends with `_with_images.md`. Putting the upload's extension back in place of that suffix restores the uploaded name. |
| ImagePlacer.BaseNames | pages/Image_Placer.py:114-116 | There is one base name per archive entry that is not a folder. |
| ImagePlacer.BaseNamesMembers | pages/Image_Placer.py:114-116 | A string is a base name exactly when it is the base name of some entry that is not a folder. |
| ImagePlacer.ImageCandidatesMembers | pages/Image_Placer.py:114-120 | The candidates are exactly the non-empty base names of entries that are not folders. |
| ImagePlacer.ImageCandidatesNoSlash | pages/Image_Placer.py:114-120 | No candidate contains a `/`. |
| ImagePlacer.ZipImageNames | pages/Image_Placer.py:113-122 | The loop, with its `seen` set, keeps each candidate the first time it appears, and nothing else. |
| ImagePlacer.ZipImageNamesSpec | pages/Image_Placer.py:113-122 | The image names never repeat and never contain `/`. They are exactly the non-empty base names of file entries, in order of first appearance. |
| ImagePlacer.PlaceImage | pages/Image_Placer.py:154-163 | With no image selected, the button refuses and changes nothing. Otherwise the new line list is three lines longer, and it is the image line for the chosen name, caption and folder inserted after the chosen heading's line. |
| ImagePlacer.PlacedImageFollowsHeading | pages/Image_Placer.py:154-163 | The chosen heading stays where it was. A blank line, the image line and a blank line follow it. Removing those three lines gives the old lines back. Every heading is kept, and the chosen one is unchanged. |
| Paths.Basename | pages/Image_Placer.py:116 | The base name holds no `/`. It ends the path, right after the last `/` when there is one. |
| Paths.SplitExt | pages/Image_Placer.py:172 | Root and extension concatenate to the path. The extension is non-empty exactly when the last path component has a dot with some non-dot character before it in that component. A non-empty extension runs from the last dot to the end. |
| Paths.Stem | pages/Image_Placer.py:172 | The root followed by the extension is the path. The root is the whole path exactly when there is no extension. |
| Paths.Extension | pages/Convert_Docs.py:147 | The extension is a suffix of the path. It is non-empty exactly when the last path component has a dot with some non-dot character before it in that component. It then starts with that last dot and holds no other dot and no `/`. |
| Paths.SplitExtExample | pages/Image_Placer.py:172 | `docs/report.docx` splits into the root `docs/report` and the extension `.docx`. |
| Paths.NoExtensionExample | pages/Image_Placer.py:172 | `a/..b` has no extension: every character before its last dot in the last component is a dot. |
| DocxConvert.LevelFromSpec | pages/Convert_Docs.py:65-69 | The search from level `num` returns the first level from `num` to 6 whose digit occurs in the style name, or 1 when no such level exists. |
| DocxConvert.StyleLevelSpec | pages/Convert_Docs.py:65-69 | The heading level is between 1 and 6. It is the smallest level whose digit occurs in the style name, or 1 when none occurs. |
| DocxConvert.FindHeadingLevel | pages/Convert_Docs.py:65-69 | The loop with `break` returns the level that `StyleLevel` specifies. |
| DocxConvert.ParagraphMarkdownSpec | pages/Convert_Docs.py:57-81 | A paragraph renders as the empty line exactly when its text is blank. Otherwise it renders as the style's prefix (heading hashes, `- `, `1. ` or none, tested in that order) followed by the trimmed text. |
| DocxConvert.ParagraphToMarkdown | pages/Convert_Docs.py:49-81 | The method returns the line that `ParagraphMarkdown` specifies. |
| DocxConvert.StyleCaseInsensitive | pages/Convert_Docs.py:61 | Style names that lower-case alike render alike. |
| DocxConvert.HeadingLineParse | pages/Convert_Docs.py:70 | A heading line of `level` hashes, a space and a trimmed text not starting with `#` parses back to that level and text. |
| DocxConvert.HeadingRoundTrip | pages/Convert_Docs.py:63-70 | A heading paragraph becomes a Markdown heading line. Parsing that line back gives the paragraph's level and trimmed text. |
| DocxConvert.CleanCellSpec | pages/Convert_Docs.py:91 | A cleaned cell is trimmed and holds no line break. It holds no pipe character unless the cell had one. |
| DocxConvert.CleanCells | pages/Convert_Docs.py:91 | Every cell of the row is cleaned, in place. |
| DocxConvert.RowLinePipes | pages/Convert_Docs.py:92 | A row line has at least its two outer pipes. With no pipe inside the cells, it has exactly one pipe more than it has cells. |
| DocxConvert.SeparatorWidth | pages/Convert_Docs.py:98-100 | With no pipe in the cells, the column count read off the header is the number of cells. An empty row counts as 1. |
| DocxConvert.SeparatorSpec | pages/Convert_Docs.py:100 | The separator has one leading pipe and one dashed segment per column, and it is a single line. |
| DocxConvert.RowLines | pages/Convert_Docs.py:89-92 | There is one row line per table row, in order. |
| DocxConvert.RowLineOneLine | pages/Convert_Docs.py:92 | A row line is a single line. |
| DocxConvert.TableToMarkdown | pages/Convert_Docs.py:84-105 | The loop and the header and separator logic return the text that `TableMarkdown` specifies. |
| DocxConvert.TableLines | pages/Convert_Docs.py:98-105 | A non-empty table reads as the header line, the separator line, then each other row on its own line. |
| DocxConvert.BlockTexts | pages/Convert_Docs.py:115-121 | Each block is rendered, in document order. |
| DocxConvert.SpacedSpec | pages/Convert_Docs.py:123-124 | Every text is followed by one empty line, and nothing else is added. |
| DocxConvert.BlockLinesSpec | pages/Convert_Docs.py:115-124 | Line `2i` is block `i`'s text, and line `2i+1` is empty. |
| DocxConvert.ConvertToMarkdown | pages/Convert_Docs.py:108-127 | The block loop returns the Markdown that `ConvertedMarkdown` specifies. |
| DocxConvert.ConvertedShape | pages/Convert_Docs.py:126 | The document ends in exactly one line break and starts with no whitespace. It is just a line break exactly when every block rendered blank. |
| DocxConvert.KeptMediaMembers | pages/Convert_Docs.py:141-149 | An entry is extracted exactly when it lies under the media folder and has a `.png`, `.jpg`, `.jpeg` or `.gif` extension (in any case). |
| DocxConvert.Numbered | pages/Convert_Docs.py:145-154 | There is one image per kept entry. The `k`-th kept entry, counting from 0 in archive order, is named after the base name, the number `k + 1` and its own lower-cased extension. |
| DocxConvert.ExtractImages | pages/Convert_Docs.py:132-156 | The loop, with its `idx` counter that skips non-images, returns the images that `ExtractedImages` specifies. |
| DocxConvert.ImageNameParts | pages/Convert_Docs.py:151 | An image name starts with the base name and `_`, followed by the decimal number up to the extension's dot. |
| DocxConvert.ImageNamesDiffer | pages/Convert_Docs.py:151 | Two different numbers give two different names, whatever the extensions. |
| DocxConvert.ExtractedNamesDistinct | pages/Convert_Docs.py:145-154 | The extracted images have pairwise different names. |
| DocxConvert.CleanBaseName | pages/Convert_Docs.py:183-185 | The upload's name loses its extension. Every character is kept except that spaces become `_` and letters are lower-cased. |
| DocxConvert.MarkdownFileName | pages/Convert_Docs.py:203 | The Markdown download is the cleaned base name plus `.md`. |
| DocxConvert.ImagesZipName | pages/Convert_Docs.py:219 | The archive download is the cleaned base name plus `_images.zip`. |
| ChatImages.LoadConfig | pages/ChatBotV2.py:33-45 | A missing or unreadable file gives two empty tables. A parsed file gives its tables, each empty when absent. |
| ChatImages.FirstMatchFrom | pages/ChatBotV2.py:157-162 | The result is the first entry from `from` on with a keyword in the query. No earlier entry matches, and there is none when no entry matches. |
| ChatImages.FirstMatchSpec | pages/ChatBotV2.py:157-162 | A match exists exactly when some entry matches, and the first matching entry is the one picked. |
| ChatImages.LaterEntriesIgnored | pages/ChatBotV2.py:157-162 | Entries after the first match are never consulted, because of the `break`. |
| ChatImages.AnyKeyword | pages/ChatBotV2.py:158 | The keyword loop reports exactly whether some keyword occurs in the query. |
| ChatImages.FindDirectImage | pages/ChatBotV2.py:156-162 | The flag is set exactly when an entry matches. When it is set, the content is the first match's title line and the images are that entry's images. Otherwise both are empty. |
| ChatImages.StepNumberSpec | pages/ChatBotV2.py:205-208 | A numbered line's step is the text before its first `.`, untrimmed, and is never empty. |
| ChatImages.StepAtSpec | pages/ChatBotV2.py:200-210 | The current step is unset until a numbered line is seen. After that, it is the step number of the last numbered line seen. |
| ChatImages.StepAtActive | pages/ChatBotV2.py:212 | The step test passes exactly when some numbered line has been seen. |
| ChatImages.AppendNew | pages/ChatBotV2.py:219-222 | Appending the new images keeps the list equal to the first-occurrence de-duplication of everything offered so far. |
| ChatImages.AddStepImages | pages/ChatBotV2.py:214-222 | The loop over the retrieved documents appends, without repeats, the images each document maps to the current step. |
| ChatImages.CollectStepImages | pages/ChatBotV2.py:199-222 | The line scan returns the images that `StepImages` specifies. |
| ChatImages.SourceImagesFrom | pages/ChatBotV2.py:214-219 | Every image offered for a step comes from the map entry of one retrieved document for that step. |
| ChatImages.CandidatesFrom | pages/ChatBotV2.py:204-222 | Every offered image belongs to the current step at some line, under some retrieved document. |
| ChatImages.StepImagesSpec | pages/ChatBotV2.py:199-222 | The step images never repeat. They are exactly the offered images, in order of first offer, and each is mapped for a step current at some line of the answer. |
| ChatImages.NoNumberedLineNoImages | pages/ChatBotV2.py:204-212 | An answer with no numbered line gets no step images. |
| ChatImages.Respond | pages/ChatBotV2.py:151-222 | The chat handler returns the reply that `ReplyFor` specifies. |
| ChatImages.ReplyDirectOrGenerated | pages/ChatBotV2.py:156-196 | A direct request shows the first matching entry's images and does not depend on retrieval or the model. Otherwise the reply is the model's answer, with the step images collected from that answer. |
| ChatImages.LastFive | pages/ChatBotV2.py:171 | The result is the last at most five messages, and all of them when there are five or fewer. |
| ChatImages.HistoryLines | pages/ChatBotV2.py:170-172 | With single-line messages, the history has one line per message among the last five, in order. |
| CallReport.MaterialNamesDistinct | pages/CallComplete.py:87-93 | The seven fixed material names are distinct. |
| CallReport.PickedSpec | pages/CallComplete.py:87-93 | A name is picked exactly when its flag is set. Picked names keep the order of the list. |
| CallReport.TickedNamesSpec | pages/CallComplete.py:87-93 | A fixed material is listed exactly when its box is ticked. Listed materials keep the order of the boxes. |
| CallReport.StrippedLinesSpec | pages/CallComplete.py:97 | Each kept line is trimmed and non-empty. A string is kept exactly when some line strips to it. |
| CallReport.CustomMaterialsSpec | pages/CallComplete.py:95-98 | Each custom material is a trimmed, non-empty single line of the text. Every non-blank line contributes its trimmed self. |
| CallReport.BlankExtrasAddNothing | pages/CallComplete.py:95 | A blank free text contributes nothing. |
| CallReport.BuildMaterialList | pages/CallComplete.py:86-98 | The list is the ticked materials in box order, followed by the custom materials. |
| CallReport.MaterialListSingleLines | pages/CallComplete.py:86-98 | No material spans two lines. |
| CallReport.Bullets | pages/CallComplete.py:100 | Each material becomes one `- ` bullet, in order. |
| CallReport.ExtrasTextNone | pages/CallComplete.py:100 | The materials text is `None` exactly when no material was listed. |
| CallReport.ExtrasTextLines | pages/CallComplete.py:100 | Single-line materials read back as one bullet per line. |
| CallReport.MaterialsReadBack | pages/CallComplete.py:86-100 | The prompt's materials text reads back as one bullet per listed material. |
| CallReport.Facts | pages/CallComplete.py:111 | The facts are the description when it is non-empty, and `No issues reported.` otherwise. |
| CallReport.PromptStartsWithType | pages/CallComplete.py:105-106 | The prompt opens with the report type on a line of its own. |
| CallReport.PromptCarriesSections | pages/CallComplete.py:105-118 | The prompt carries the facts and the materials text, each under its heading. |
| CallReport.Template | pages/CallComplete.py:123-152 | The fallback report has no surrounding whitespace. |
| CallReport.TemplateSpec | pages/CallComplete.py:123-152 | A PM or installation report is its body with only the surrounding line breaks removed. The description's leading whitespace survives. A deinstallation report loses the description's trailing whitespace, and also the line break before the description when it is blank. |
| CallReport.ReportText | pages/CallComplete.py:157-161 | The report is trimmed: either the model's reply to the prompt, trimmed, or the fallback template. |
| CallReport.ReportFileName | pages/CallComplete.py:173 | The file name ends with `_report.txt`. What comes before that suffix has as many characters as the report type. |
| CallReport.ReportFileNames | pages/CallComplete.py:173 | The three report types give `pm_report.txt`, `installation_report.txt` and `deinstallation_report.txt`. |
| CallReport.Submit | pages/CallComplete.py:83-175 | Submitting produces the report and file name that the functions above specify. |
| Order.SortedSetSpec | streamlit_app.py:76 | The sorted set of a list is strictly ascending in Python's string order and holds exactly the list's strings. |
| Order.SortedUnique | streamlit_app.py:76 | Only one strictly ascending list has a given set of members. |
| Manual.NextDocId | streamlit_app.py:138-144 | A new document's id is at least 1 and larger than every id in the table. When the table is non-empty, it is exactly one more than the largest id. |
| Manual.AppendKeepsIds | streamlit_app.py:138-144 | Inserting with the next id keeps ids increasing along the table. |
| Manual.StepsOfSpec | streamlit_app.py:194 | The search returns exactly the steps of the procedure. |
| Manual.MaxNumberSpec | streamlit_app.py:195 | The maximum bounds every number and is attained. |
| Manual.NextStepNumberSpec | streamlit_app.py:194-195 | The next number exceeds every number in the procedure. It is 1 for a procedure without steps, and otherwise one more than the procedure's largest number. |
| Manual.AddStepKeepsNumbering | streamlit_app.py:194-207 | Adding a step keeps step numbers strictly increasing within every procedure. |
| Manual.AddStepTouchesOneProcedure | streamlit_app.py:201-207 | The step is appended to its own procedure, and every other procedure's steps are unchanged. |
| Manual.InsertByNumberSpec | streamlit_app.py:106 | Inserting into a list sorted by number keeps it sorted and adds exactly that step. |
| Manual.SortByNumberSpec | streamlit_app.py:106 | The sort orders steps by number (a missing number counts as 0), and the result is a permutation of the input. |
| Manual.SortByNumberKeepsIncreasing | streamlit_app.py:106 | Steps already in strictly increasing order come back unchanged. |
| Manual.ProcedureStepsSpec | streamlit_app.py:102-106 | The listed steps are exactly the procedure's steps, as a permutation, ordered by number. |
| Manual.StepsOfIncrease | streamlit_app.py:194-207 | In a manual numbered by its own inserts, a procedure's steps carry strictly increasing numbers. |
| Manual.ProcedureStepsInAddedOrder | streamlit_app.py:102-106 | Such steps are listed in the order they were added. |
| Manual.Categories | streamlit_app.py:76 | There is one category per procedure, with `Uncategorized` when it has none. |
| Manual.CategoryOptionsSpec | streamlit_app.py:76-80 | The options are `All`, then every category in use, once each, in ascending order, and nothing else. |
| Manual.FiltersDisagree | streamlit_app.py:84-93 | The filter as written and the corrected filter disagree exactly on a procedure without a category, when `Uncategorized` is chosen and the text search matches. |
| Manual.UncategorizedHiddenAsWritten | streamlit_app.py:76-93 | A procedure stored without a category is offered under `Uncategorized`. Yet the view as written lists nothing when that option is chosen, while the corrected view lists the procedure. |
| Manual.VisibleProceduresSpec | streamlit_app.py:84-93 | The view as written lists a procedure exactly when `All` is chosen or its stored category is the chosen one, and the text search is empty or finds it. `All` with an empty search lists every procedure in table order. |
| Manual.CorrectedVisibleProceduresSpec | streamlit_app.py:76-93 | The corrected view lists a procedure exactly when `All` is chosen or its listed category (`Uncategorized` when it has none) is the chosen one, and the text search passes. `All` with an empty search lists every procedure in table order. |
| Manual.EveryOptionListsSomething | streamlit_app.py:76-93 | In the corrected view, every category option lists at least one procedure. |
| Manual.LabelsOf | streamlit_app.py:48-49 | There is one label per document, in table order. |
| Manual.ChoiceMapSpec | streamlit_app.py:48 | The mapping's keys are exactly the labels. Each key maps to the id of a document with that label. |
| Manual.ChoicesSpec | streamlit_app.py:44-61 | An empty table gives an empty mapping and an empty list. The labels never repeat and are exactly the mapping's keys. |
| Manual.ChoicesDistinct | streamlit_app.py:44-61 | When labels are distinct, the choice list has one label per document in table order, and each label maps to its own document's id. |
| Manual.IdSuffixInjective | streamlit_app.py:48 | The id can be read back from the end of a label. |
| Manual.ProcedureChoicesSpec | streamlit_app.py:44-50 | There is one procedure choice per procedure, in table order, and each choice maps to that procedure's id. |
| Manual.PartChoicesSpec | streamlit_app.py:52-61 | There is one part choice per part, in table order, and each choice maps to that part's id. |
| Manual.ManualDb.constructor | streamlit_app.py:23-27 | The manual starts with four empty tables, and it is valid. |
| Manual.ManualDb.AddProcedure | streamlit_app.py:134-145 | Without a name or a category, it reports the required-fields error and changes nothing. Otherwise it appends the procedure under the next id and returns that id. No other table changes, and ids stay distinct. |
| Manual.ManualDb.AddStep | streamlit_app.py:190-209 | Without text, it reports the error and changes nothing. Otherwise it appends the step with the next number of its procedure and returns that number. Numbering stays increasing, and no other table changes. |
| Manual.ManualDb.AddPart | streamlit_app.py:255-272 | Without a name or a location, it reports the error and changes nothing. Otherwise it appends the part under the next id. No other table changes. |
| Manual.ManualDb.AddSerial | streamlit_app.py:316-330 | Without a serial number, it reports the error and changes nothing. Otherwise it appends the serial with source `manual`. No other table changes. |
| Manual.ManualDb.SaveScannedSerial | streamlit_app.py:394-407 | Without a machine tag or a technician, it reports the error and changes nothing. Otherwise it appends the scanned code with source `mobile_scanner`. No other table changes. |

## Left out

- Streamlit widgets, session state, page layout, messages, previews and the truncation of long previews (`pages/Image_Placer.py:168-169`, `pages/Convert_Docs.py:198`): they are user interface, not logic.
- `str.splitlines` in `parse_headings`: the model takes the list of lines as its input.
- The default caption (`pages/Image_Placer.py:150`): it uses Python's Unicode `str.title`.
- Unicode whitespace, digits and case: `isspace`, `isdigit` and `lower` are modelled on ASCII only. The ASCII whitespace is Python's: space, `\t` to `\r`, and the separators `\x1c` to `\x1f`. Non-ASCII whitespace such as `\x85` and `\xa0` is not.
- ZIP and DOCX bytes (`zipfile`, `python-docx`, `iter_block_items`): the model takes the archive's entry names, the paragraphs as text and style name, and the tables as rows of cell strings, in document order. An image's bytes are named by the entry they come from.
- The language model (`gerar_texto_ai`, the chat completion), the embeddings, the FAISS store and its similarity search: the model's reply and the sources of the retrieved documents are parameters. The documents' text, the split into chunks, the `load_vector_db` walk and the prompt of the chat page are not modelled.
- Chat history display and the check that image files exist (`pages/ChatBotV2.py:135-141`, `227-231`): they are file-system I/O. The history context is modelled over whatever message list it is given.
- TinyDB persistence: the tables are sequences held in memory. The id TinyDB gives a new document (one more than the largest id) is TinyDB's rule, not the repository's.
- `save_image` and the timestamps: the stored image path and the creation time are parameters.
- The serial report page, its CSV export and the `Part not found` rows, and the serial table shown beside the parts: they only render stored data.
- Manual.SortByNumberSpec: it states that the steps are sorted and form a permutation. It does not state that Python's sort is stable for equal step numbers. Steps numbered by the manual never share a number (`Manual.StepsOfIncrease`).
- A missing `name` field: the model requires every procedure and part to have a name, as every insert writes one.
- Python truthiness of strings is modelled as "non-empty". A field that contains only spaces passes the guards, as in the source.
- Answers and prompts are matched against the configuration as given. The JSON parsing of `config/image_maps.json` and its error message are not modelled.
- `pages/ChatBot.py` and `pages/CallCompleteV2.py` are not part of this model. They add no logic beyond I/O and a scanner widget.

## Findings

| source | as written | input that shows it | evidently intended | confidence | as-written member | corrected member |
|---|---|---|---|---|---|---|
| streamlit_app.py:76,85 | The category options list a procedure without a category as `Uncategorized`. The filter compares the stored category, with no default, to the option chosen. | A single procedure stored without a category, with `Uncategorized` chosen and an empty search: the option is offered, but the procedure is hidden. | Choosing `Uncategorized` lists the procedures without a category, so every offered option lists something. | not executed | Manual.UncategorizedHiddenAsWritten | Manual.EveryOptionListsSomething |
