# AutoFill-AI form filling core, modelled in Dafny

AutoFill-AI reads reference documents and fills forms from them. This project
models the two backend services that do the work, and proves properties about them.

- **`ExtractionService.extract_fields`** turns a list of requested fields into one
  result per field. For each field it does the following:
  - builds a prompt with a rule for the field's data type;
  - asks the document question-answering service;
  - repairs the answer of a "number" field to the first number in it;
  - accepts the answer as "High (Doc)" unless the call raised, the answer says
    `MISSING`, or it has no sources;
  - otherwise searches the web for the field's description and has the language model
    summarise the results ("Medium (Web)");
  - when that fails too, gives "N/A" with confidence "None".
- **`FileFillerService`** writes the results into the uploaded form:
  - builds a key-to-text map from the results;
  - picks the PDF or Word filler from the lower-cased file name, and names the output
    after the temporary input with every "." turned into "_filled.";
  - either sets the value of each PDF AcroForm widget whose name, without parentheses,
    is a key of the map;
  - or replaces every `{{key}}` in each Word paragraph and table cell, key by key in
    the map's order.

Modules:

- `Wrappers`: Option and Result.
- `Strings`: Python `in`, `replace`, `split`/`join`, `strip`, `lower` and `endswith`
  on `seq<char>`. `replace` is proved equal to `rep.join(s.split(pat))`.
- `NumberPattern`: `re.search(r'-?\d*\.?\d+', s)`. It is proved to give the leftmost
  match and, at that start, the longest one.
- `Schemas`: `ExtractionField`, `FieldResult` and Python's `str()` of a value.
- `Extraction`: the extraction loop. `ExtractFields` is a method with a loop, proved
  against the per-field function `ExtractOne` and the call trace `CallsUpTo`.
- `DataMaps`: the data map, an insertion-ordered dictionary.
- `FileFiller`: dispatch, output path, the `PdfDocument` class (an array of widgets
  filled in place), the `WordDocument` class (paragraph and cell texts), and
  `FillDocument`.

The external services (document query, web search, summariser) are fields of the
datatype `Services`. They are total functions that also receive the field's position,
so the same question can get different answers for different fields. A raised
exception is `RagRaised` or `None`. `ExtractFields` also returns the sequence of
calls it made, so it can be stated which call gets which question.

Where the schema's own descriptions and the code differ, the model follows the code:

- backend/app/schemas/extraction.py:20 describes `confidence` as "High/Medium/Low", but the
  code only ever gives "High (Doc)", "Medium (Web)" or "None";
- backend/app/schemas/extraction.py:18 types `value` as `Any`, but every value the
  extraction loop produces is text.

## Model

| member | source | states |
|---|---|---|
| Schemas.IntToStringRoundTrip | backend/app/services/file_filler_service.py:20 | `str()` of a whole-number value reads back as that number |
| Strings.ContainsAt | backend/app/services/extraction_service.py:67 | Python's `sub in s` holds exactly when `sub` occurs at some position of `s` |
| Strings.ReplaceAllIsJoinOfSplit | backend/app/services/file_filler_service.py:80 | `s.replace(pat, rep)` equals `rep.join(s.split(pat))` for a non-empty pattern |
| Strings.JoinOfSplit | backend/app/services/file_filler_service.py:80 | joining the pieces of a split with the separator gives the string back |
| Strings.SplitPiecesAreFree | backend/app/services/file_filler_service.py:80 | no piece of a split contains the separator, so replace leaves no occurrence it scanned |
| Strings.ReplaceAllWithoutOccurrence | backend/app/services/file_filler_service.py:79-80 | a string without the pattern is unchanged by replace |
| Strings.ReplaceAllConcat | backend/app/services/file_filler_service.py:80 | where no occurrence of the pattern straddles a boundary, the two sides are replaced apart |
| Strings.ReplaceAllKeeps | backend/app/services/file_filler_service.py:80 | a substring that no occurrence of the pattern overlaps comes through `replace` verbatim |
| Strings.ReplaceCharByNothing | backend/app/services/extraction_service.py:61 | `s.replace(c, "")` deletes every `c` and keeps the other characters in order |
| Strings.RemoveChar | backend/app/services/extraction_service.py:61 | the result of deleting `c` contains no `c` and is no longer than the input |
| Strings.StripCorrect | backend/app/services/extraction_service.py:53 | `strip()` gives a slice of the input with only whitespace around it, and the slice neither starts nor ends with whitespace |
| Strings.Lower | backend/app/services/file_filler_service.py:22 | `lower()` keeps the length and lower-cases each character |
| NumberPattern.MatchAtCorrect | backend/app/services/extraction_service.py:61 | the match at a start is a token of `-?\d*\.?\d+`, and no longer token starts there |
| NumberPattern.SearchFromCorrect | backend/app/services/extraction_service.py:61 | scanning from a position finds the first start with a token, and the longest token there; or reports that no token starts at or after it |
| NumberPattern.FirstMatchCorrect | backend/app/services/extraction_service.py:61-62 | `re.search` gives the leftmost-longest token, and none exactly when the text holds no token |
| Extraction.TypeInstruction | backend/app/services/extraction_service.py:25-33 | "number", "date" and "boolean" each get their own rule; every other data type gets the exact-value rule |
| Extraction.DefaultDataTypeRule | backend/app/schemas/extraction.py:8 | a field whose request leaves out the data type, which then is "string", gets the exact-value rule |
| Extraction.PromptQuotes | backend/app/services/extraction_service.py:36-44 | the prompt is the fixed template with the description quoted and the data type's rule as rule 1, each verbatim at its place |
| Extraction.PromptDetermines | backend/app/services/extraction_service.py:36-44 | two prompts with rules of the same length are equal exactly when their descriptions and rules are |
| Extraction.PromptForDistinguishes | backend/app/services/extraction_service.py:25-44 | fields of the same data type get the same prompt exactly when their descriptions are equal |
| Extraction.WithoutCommas | backend/app/services/extraction_service.py:61 | `answer.replace(',', '')` is the answer with every comma deleted |
| Extraction.RepairNumberCorrect | backend/app/services/extraction_service.py:57-63 | without a number in the comma-free answer it is kept; otherwise it becomes the leftmost-longest number there |
| Extraction.RepairNumberExample | backend/app/services/extraction_service.py:57-63 | "$1,234.50 USD" is repaired to "1234.50" |
| Extraction.ExtractOne | backend/app/services/extraction_service.py:47-104 | same key as the field; "High (Doc)" exactly when the document answer is usable, and then the value is the post-processed answer without MISSING, sources are non-empty and the source is `str(sources)`; "Medium (Web)" exactly when the documents failed and both web calls returned, and then the value is the raw summary, source "Internet Search"; otherwise "N/A", source "None", confidence "None" |
| Extraction.FallbackCalls | backend/app/services/extraction_service.py:80-96 | the web search is asked the field's description; the summary is made exactly when the search returned, and is asked the description with the search results as its context |
| Extraction.CallsFor | backend/app/services/extraction_service.py:47-100 | the document query with the prompt comes first; the web fallback follows exactly when the documents did not answer, so `continue` skips it |
| Extraction.MapIndexedAt | backend/app/services/extraction_service.py:21 | the results collected in the loop are, position by position, those of each field |
| Extraction.ExtractField | backend/app/services/extraction_service.py:22-104 | one pass of the loop gives `ExtractOne`'s result and `CallsFor`'s calls |
| Extraction.ExtractFields | backend/app/services/extraction_service.py:18-106 | exactly one result per field, in the fields' order, each the field's own; the calls are the fields' calls in order |
| DataMaps.Find | backend/app/services/file_filler_service.py:60 | the position found holds the key, and no position holds it when none is found |
| DataMaps.PutCorrect | backend/app/services/file_filler_service.py:20 | assigning a key keeps keys unique, maps the key to the new text, leaves other keys alone, keeps existing positions and appends a new key |
| DataMaps.BuildDataMapKeys | backend/app/services/file_filler_service.py:20 | the map has no repeated key, and its keys are exactly those of the results whose value is not None |
| DataMaps.BuildDataMapLastWins | backend/app/services/file_filler_service.py:20 | a key maps to `str` of the value of the last result with that key that has a value |
| FileFiller.LowerEndsWith | backend/app/services/file_filler_service.py:22 | the lower-cased name ends with a suffix exactly when its last characters, lower-cased, are the suffix |
| FileFiller.DispatchCorrect | backend/app/services/file_filler_service.py:32-37 | PDF exactly when the name ends in ".pdf" in any case; Word exactly when it does not but ends in ".docx" in any case; every other name is refused as unsupported |
| FileFiller.DispatchIgnoresCase | backend/app/services/file_filler_service.py:22 | lower-casing the name again changes nothing |
| FileFiller.DispatchUpperCasePdf | backend/app/services/file_filler_service.py:22-33 | a name ending in ".PDF" goes to the PDF filler |
| FileFiller.DispatchMixedCaseDocx | backend/app/services/file_filler_service.py:22-35 | a name ending in ".Docx" goes to the Word filler |
| FileFiller.LastIndexOf | backend/app/services/file_filler_service.py:25 | the position found holds the character and none after it does, or -1 when none does |
| FileFiller.SplitExtCorrect | backend/app/services/file_filler_service.py:25 | the temporary file's suffix is empty, or a dot without further dots or separators that ends the name |
| FileFiller.SplitExtOf | backend/app/services/file_filler_service.py:25 | a name with a stem has as suffix its last extension, such as ".pdf" |
| FileFiller.OutputPathKeepsExtension | backend/app/services/file_filler_service.py:25-29 | the output path ends in "_filled" and the temporary file's suffix |
| FileFiller.DotOnlyNameKeepsPath | backend/app/services/file_filler_service.py:22-33 | an upload named ".pdf" goes to the PDF filler, its temporary copy gets no suffix, and with a dot-free temporary name the output path equals the input path |
| FileFiller.OutputPathCons | backend/app/services/file_filler_service.py:29 | a leading dot becomes "_filled." and any other leading character stays |
| FileFiller.OutputPathLength | backend/app/services/file_filler_service.py:29 | the output is seven characters longer per dot of the input |
| FileFiller.DotsFollowMark | backend/app/services/file_filler_service.py:29 | every dot of the output follows "_filled" |
| FileFiller.OutputPathRoundTrip | backend/app/services/file_filler_service.py:29 | replacing "_filled." by "." in the output gives the input path back |
| FileFiller.OutputPathConcat | backend/app/services/file_filler_service.py:29 | the path is rewritten piece by piece |
| FileFiller.OutputPathWithoutDots | backend/app/services/file_filler_service.py:29 | a path without dots is unchanged |
| FileFiller.OutputPathEveryDot | backend/app/services/file_filler_service.py:29 | the dots of the directories are rewritten as well as the extension's |
| FileFiller.OutputPathExample | backend/app/services/file_filler_service.py:29 | "/tmp/a.b/t.pdf" becomes "/tmp/a_filled.b/t_filled.pdf" |
| FileFiller.NormaliseNameCorrect | backend/app/services/file_filler_service.py:58 | the key is the name with every "(" and ")" deleted and the other characters in order |
| FileFiller.FillWidgetCorrect | backend/app/services/file_filler_service.py:55-62 | a widget takes the mapped text exactly when it has a non-empty name whose parenthesis-free form is a key; otherwise it is unchanged, and its name never changes |
| FileFiller.PdfDocument.constructor | backend/app/services/file_filler_service.py:50 | the document holds the given AcroForm flags and widgets |
| FileFiller.PdfDocument.Fill | backend/app/services/file_filler_service.py:50-65 | with an AcroForm every widget is filled; without one no widget changes; an AcroForm without `Fields` fails before any change |
| FileFiller.ApplyOneIsReplaceAll | backend/app/services/file_filler_service.py:78-80 | the `in` test before a replacement changes nothing: each pass is a plain replace-all, i.e. `value.join(text.split(placeholder))` |
| FileFiller.FillTextAppend | backend/app/services/file_filler_service.py:77-80 | the pass for a later key runs on the text the earlier keys' passes produced |
| FileFiller.FillTextUntouched | backend/app/services/file_filler_service.py:77-80 | text holding no placeholder of any key in the map is unchanged |
| FileFiller.PlaceholderInPlaceholder | backend/app/services/file_filler_service.py:78 | the placeholder of a brace-free key contains no other key's placeholder |
| FileFiller.AbsentPlaceholderKept | backend/app/services/file_filler_service.py:77-80 | a text that is just the placeholder of a brace-free key missing from the map is unchanged |
| FileFiller.ClosingBraces | backend/app/services/file_filler_service.py:78 | in the placeholder of a brace-free key, the first "}" after the opening braces ends the key |
| FileFiller.PlaceholdersApart | backend/app/services/file_filler_service.py:78-80 | placeholders of brace-free keys overlap only when they are the same placeholder at the same place |
| FileFiller.ApplyOneKeepsPlaceholder | backend/app/services/file_filler_service.py:78-80 | the pass for a brace-free key leaves another brace-free key's placeholder where it stands, and replaces the text on each side of it separately |
| FileFiller.FillTextKeepsPlaceholder | backend/app/services/file_filler_service.py:77-80 | a placeholder whose brace-free key is in no entry of a map of brace-free keys comes through all the passes verbatim, with the text on each side filled separately |
| FileFiller.AbsentPlaceholderInText | backend/app/services/file_filler_service.py:77-89 | when every key is brace-free, a placeholder for a key missing from the map, anywhere in a paragraph or cell, stays where it is, and the text before and after it is filled as if it stood alone; so every copy stays |
| FileFiller.BracedKeySwallowsPlaceholder | backend/app/services/file_filler_service.py:77-80 | with the key "x}}{{y" in the map, "{{x}}{{y}}" becomes the value alone, though "x" is no key |
| FileFiller.ApplyPlaceholders | backend/app/services/file_filler_service.py:77-80 | the loop over the map computes the key-by-key passes |
| FileFiller.FillCells | backend/app/services/file_filler_service.py:85-89 | every cell of a row is filled, and the row keeps its length |
| FileFiller.FillRows | backend/app/services/file_filler_service.py:84-89 | every row of a table is filled, and the table keeps its shape |
| FileFiller.WordDocument.constructor | backend/app/services/file_filler_service.py:73 | the document holds the given paragraphs and tables |
| FileFiller.WordDocument.Fill | backend/app/services/file_filler_service.py:73-91 | every paragraph, and every cell of every row of every table, is filled; the shapes stay and nothing else changes |
| FileFiller.FillDocument | backend/app/services/file_filler_service.py:15-43 | only the filler the name selects changes its document, using the map built from the results; the result is the output path of the temporary copy, whose suffix is the lower-cased name's extension, or the unsupported-format error, or the PDF filler's error |

## Left out

- Reading, copying and deleting the temporary files, `PdfReader`, `PdfWriter` and `doc.save`: these are file I/O. The documents come in as objects and their final state is what would be written. The temporary file's name before its suffix is the parameter `tempName`, since `tempfile` chooses it. The suffix, the extension of the lower-cased upload name, is modelled.
- FileFiller.AbsentPlaceholderInText: proved only when every key of the map is brace-free. A key holding braces can swallow an absent placeholder (`BracedKeySwallowsPlaceholder`), and the source then does not keep it verbatim.
- For an upload named ".pdf" or "..docx", the output path can equal the input path (`DotOnlyNameKeepsPath`). The filler then writes over its own input, and the `finally` at backend/app/services/file_filler_service.py:39-42 deletes the file whose path is returned. This file-system effect is not modelled.
- `os.path.splitext` is modelled with the POSIX separator "/" only; on Windows the backslash would separate path components as well.
- `file.filename` is always a string in the model. An upload without a file name is `None` in the source, and `.lower()` then raises `AttributeError`.
- `PdfString.encode`: a filled widget's value is the mapped text itself, not its PDF string literal with escapes.
- python-docx run handling: setting a paragraph's or cell's text replaces its runs and their formatting. Merged cells, which `row.cells` returns more than once, are not modelled either; each cell is filled once from its own text.
- FileFiller.WordDocument.Fill: a merged cell seen twice by the source gets the passes twice; the model fills each cell position once.
- Strings.Lower: only ASCII letters are lower-cased. No other character lower-cases to one of ".pdfocx", so the dispatch verdict is the same as Python's.
- NumberPattern.IsDigit: `\d` is ASCII digits only, whereas Python also matches other Unicode decimal digits.
- Values other than None, text, whole numbers and booleans (floats, lists, dictionaries) and their `str()` are not modelled.
- `str(sources)`: the document service gives, for each source document, the text Python prints for it. `ShowSources` only adds the brackets and separators, because the element type of `source_documents` is in code this model has no view of.
- The text of the summary prompt (backend/app/services/extraction_service.py:86-93) is left out, because it is rendered by a foreign template library. The model records the question and the search results passed to it.
- The model assumes the document service's reply carries an "answer" string and a "source_documents" list. A reply without either key raises a `KeyError` in the source, which `RagRaised` covers. A `None` list is not modelled: the source sends it to the web fallback, as it does an empty list. A tuple is not modelled either: the source accepts it and prints it with parentheses.
- Logging and async/await: there is nothing to capture, because the calls run one after the other.
- `ExtractionRequest` and `ExtractionResponse` (backend/app/schemas/extraction.py:11-13 and 23-24) are plain containers and are not modelled.
- backend/app/services/rag_service.py, schema_service.py, llm_service.py, backend/app/main.py, backend/app/core/config.py and the frontend are not part of this model. What `query_document`, the web search and the language model do is the `Services` oracles.
