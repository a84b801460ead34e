# PANDA PDF extractor — a Dafny model

PANDA reads a scientific article in PDF form, asks a language model for a
Markdown table of (title, author, e-mail) triples and returns the triples as a
three-column DataFrame (TÍTULO, AUTOR, E-MAIL). This project models the
deterministic core of `lib/extrator.py` and proves its properties:

- `text.dfy` (module `Text`): the Python string operations the core uses —
  `str.strip()` (with Python's whitespace set), `str.split(sep)` and
  `str.endswith` — with `strip` characterised uniquely and `split` proved to
  be the inverse of joining.
- `markdown_table.dfy` (module `MarkdownTable`): `markdown_para_dataframe`,
  as a method with the source's loop (`MarkdownToDataFrame`) proved equal to
  the specification function `TableOf`, and the parser's properties as lemmas.
  A DataFrame is a `seq<Row>`, a row the three columns in order.
- `pdf_text.dfy` (module `PdfText`): `extrair_texto_pdf`, as a loop with the
  early `break` at page index 3 (`ExtractPdfText`) proved equal to
  `FirstPagesText`. A PDF is the sequence of what text extraction yields per
  page (`None` where it yields nothing).
- `extractor.dfy` (module `Extractor`): the pure parts of `processar_pdfs` —
  the `.pdf` filter over the directory listing, the "no PDF" error, the choice
  of the first PDF, the prompt — and `ProcessPdfs`, which composes them with
  text extraction, the model call (a parameter) and the parser.
- `wrappers.dfy` (module `Wrappers`): `Option` and `Result`.

The sentinel row is `("Erro no arquivo", "", "Tabela Markdown não reconhecida")`;
the page limit is the fixed constant 3; `processar_pdfs` reads only the first
PDF of the directory listing. A reply that copies the prompt's example layout literally, with pipes only between the cells and none at the ends of a line, yields only the sentinel row (`MarkdownTable.InnerPipesGiveNoRow`).

## Model

| member | source | states |
|---|---|---|
| `Text.Strip` | lib/extrator.py:33 | the result has no whitespace at either end and is no longer than the input |
| `Text.StripIsCandidate` | lib/extrator.py:33 | the result of `strip()` is the input with only whitespace removed in front of it and behind it |
| `Text.StripKeepsAbsent` | lib/extrator.py:66 | a character absent from the input is absent from its stripped form |
| `Text.StripCandidateUnique` | lib/extrator.py:33 | `strip()` has a single possible result: any two ways of removing only end whitespace to reach a stripped string agree |
| `Text.StripPadded` | lib/extrator.py:66 | stripping whitespace padding around an already stripped string gives that string back |
| `Text.StripIdempotent` | lib/extrator.py:33 | stripping an already stripped result changes nothing |
| `Text.Split` | lib/extrator.py:61 | `split(sep)` yields one more part than there are separators and no part contains the separator |
| `Text.JoinSplit` | lib/extrator.py:61 | round trip: joining the parts of a split with the separator restores the input |
| `Text.SplitJoin` | lib/extrator.py:66 | round trip: splitting separator-free parts joined by the separator gives back exactly those parts |
| `Text.SplitKeepsAbsent` | lib/extrator.py:61-62 | a character absent from the input is absent from every part of its split |
| `MarkdownTable.CandidateLines` | lib/extrator.py:61-62 | the kept lines are exactly the lines of the stripped reply that contain a pipe; each has no line break, and there are at most as many as the reply has lines (order and repetitions: `PipeLinesAppend`) |
| `MarkdownTable.PipeLines` | lib/extrator.py:62 | keeps exactly the lines that contain a pipe, never more lines than given (order and repetitions: `PipeLinesAppend`) |
| `MarkdownTable.PipeLinesAppend` | lib/extrator.py:62 | filtering concatenated lines is filtering each part and concatenating: kept lines keep their order and their repetitions |
| `MarkdownTable.PipeLinesSkip` | lib/extrator.py:62 | a line without a pipe, wherever it stands, never changes the kept lines |
| `MarkdownTable.ProseLineIgnored` | lib/extrator.py:60-73 | a reply with an extra line without a pipe (an introductory sentence, a blank line) gives the same DataFrame as the reply without it |
| `MarkdownTable.DropHeader` | lib/extrator.py:65 | the header and separator lines are removed when there are two or more lines, otherwise nothing is left |
| `MarkdownTable.Cells` | lib/extrator.py:66 | a line with a pipe yields one cell fewer than it has pipe characters; every cell is stripped and free of pipes |
| `MarkdownTable.RowsOf` | lib/extrator.py:64-68 | at most one row per line, and every row's cells are stripped and free of pipes |
| `MarkdownTable.TableOf` | lib/extrator.py:60-73 | the DataFrame is never empty, all its cells are stripped and free of pipes; it is the single sentinel row when no data line yields three cells, and the data lines' rows otherwise |
| `MarkdownTable.MarkdownToDataFrame` | lib/extrator.py:60-73 | the loop that appends the three-cell lines computes exactly `TableOf` |
| `MarkdownTable.SentinelClean` | lib/extrator.py:71 | the sentinel's cells are themselves stripped and free of pipes |
| `MarkdownTable.RowsOfAppend` | lib/extrator.py:64-68 | the rows of concatenated lines are the rows of each part, in order: rows keep the order of their lines |
| `MarkdownTable.InnerPipesGiveNoRow` | lib/extrator.py:66-68 | a line with pipes only between its cells, as in the prompt's example header (lib/extrator.py:16) of TÍTULO, AUTOR and E-MAIL separated by two pipes, never yields a row |
| `MarkdownTable.KeptIffFourPipes` | lib/extrator.py:66-68 | a line containing a pipe yields a row if and only if it contains exactly four pipe characters |
| `MarkdownTable.DropLineIndependent` | lib/extrator.py:65-68 | removing a line that does not have three cells leaves all other rows, and their order, unchanged |
| `MarkdownTable.NoPipeNoCandidates` | lib/extrator.py:61-62 | a reply without a pipe has no candidate line |
| `MarkdownTable.NoPipeGivesSentinel` | lib/extrator.py:61-71 | a reply without a pipe gives exactly the sentinel row |
| `MarkdownTable.RenderRowSplit` | lib/extrator.py:66 | a written data row (cells between pipes, each with any whitespace around it other than a line break) splits at the pipe into an empty segment, the three padded cells and an empty segment |
| `MarkdownTable.RenderRowCells` | lib/extrator.py:66 | a written data row with clean one-line cells yields exactly those three cells, whatever whitespace (spaced, compact or column-aligned) surrounds each cell |
| `MarkdownTable.BlankLastCell` | lib/extrator.py:66 | a row written with an empty e-mail cell as the prompt allows (lib/extrator.py:20), in the form pipe, title, pipe, author, pipe, space, pipe, yields the title, the author and an empty cell |
| `MarkdownTable.RowsOfRendered` | lib/extrator.py:64-68 | written data lines, each laid out with its own whitespace, parse back to exactly their rows, in order |
| `MarkdownTable.RenderedTableRoundTrip` | lib/extrator.py:60-73 | a reply made of a header line and a separator line (each containing a pipe and no line break, the header not starting with whitespace) and N ≥ 1 data rows with clean one-line cells, each row with any whitespace other than a line break around each cell, surrounded by any whitespace, parses back to exactly those N rows in order; the first two lines never contribute a row |
| `PdfText.PageText` | lib/extrator.py:32 | a page whose extraction yields nothing contributes the empty string, any other page its extracted text |
| `PdfText.ConcatPages` | lib/extrator.py:29-32 | the concatenated text begins with the first page's text |
| `PdfText.ReadPages` | lib/extrator.py:29-31 | the pages read are the first three, or all pages of a shorter document |
| `PdfText.FirstPagesText` | lib/extrator.py:26-33 | the extracted text is stripped and no longer than the concatenated text of the pages read |
| `PdfText.ExtractPdfText` | lib/extrator.py:26-33 | the loop that appends page texts and breaks at index 3 computes exactly `FirstPagesText` |
| `PdfText.ConcatPagesSnoc` | lib/extrator.py:29-32 | page texts are appended in page order, a missing text contributing nothing |
| `PdfText.LaterPagesIgnored` | lib/extrator.py:30-31 | pages after the third never change the extracted text |
| `PdfText.ThreePagesInOrder` | lib/extrator.py:29-33 | the text is the stripped concatenation of pages 1, 2 and 3 in that order, missing text read as empty |
| `PdfText.ShortDocumentReadWhole` | lib/extrator.py:29-33 | a document of at most three pages is read whole |
| `PdfText.ConcatBlank` | lib/extrator.py:32 | blank or missing page texts concatenate to whitespace only |
| `PdfText.BlankPagesGiveEmptyText` | lib/extrator.py:32-33 | when every read page is missing or blank the extracted text is empty, not an error |
| `Text.EndsWith` | lib/extrator.py:36 | a name that ends with the suffix is some front followed by the suffix |
| `Text.EndsWithAppended` | lib/extrator.py:36 | conversely, any front followed by the suffix ends with the suffix |
| `Extractor.PdfNames` | lib/extrator.py:36 | exactly the listed names ending in `.pdf` are kept |
| `Extractor.PdfNamesSkip` | lib/extrator.py:36 | names before the first `.pdf` name contribute nothing |
| `Extractor.SelectPdf` | lib/extrator.py:36-40 | the "no PDF" error is returned if and only if no name ends in `.pdf`; otherwise a listed `.pdf` name is chosen |
| `Extractor.SelectFirstPdf` | lib/extrator.py:36-40 | the chosen file is the first name in the listing that ends in `.pdf` |
| `Extractor.BuildPrompt` | lib/extrator.py:43 | the prompt starts with `PROMPT_BASE`, then the opening `'''` line, ends with the closing `'''` and the trailer, and the article text between the delimiters is recovered exactly |
| `Extractor.BuildPromptInjective` | lib/extrator.py:43 | different article texts give different prompts |
| `Extractor.ProcessPdfs` | lib/extrator.py:35-58 | given a PDF reader and model call that succeed, fails with the "no PDF" message if and only if no name ends in `.pdf`; otherwise returns a non-empty DataFrame |
| `Extractor.ProcessFirstPdf` | lib/extrator.py:35-58 | the result is the parse of the model's reply to the prompt built from the first PDF's first pages, with the reply's token count |
| `Extractor.LaterFilesIgnored` | lib/extrator.py:36-41 | files listed after the first PDF never influence the result |

## Left out

- The language-model call (lib/extrator.py:45-55): model name, messages and temperature are not modelled; the completion is the parameter `complete` of `ProcessPdfs`, a function of the prompt giving the reply text and the token count. The model is thus treated as deterministic: `Extractor.LaterFilesIgnored` and `Extractor.ProcessFirstPdf` compare runs that send the same prompt, and the service promises the same reply to the same prompt only approximately, even at temperature 0.
- PDF reading (`PdfReader`, `extract_text`, lib/extrator.py:27, 32): a document is the sequence of per-page extraction results, given as input (`pagesOf` in `ProcessPdfs`).
- Loading the API key and building the client (lib/extrator.py:7-11): configuration and I/O.
- `os.listdir` and `os.path.join` (lib/extrator.py:36, 40): the listing is an input sequence, in whatever order the operating system returns it; files are identified by their listed name.
- pandas specifics (lib/extrator.py:71, 73): a DataFrame is the sequence of its rows; the column names TÍTULO, AUTOR and E-MAIL are the fields of `MarkdownTable.Row`, in that order.
- Failures of the collaborators are not modelled: `pagesOf` and `complete` are total functions, so an unreadable PDF or a failing `extract_text` (lib/extrator.py:27, 32), a failing model call (lib/extrator.py:45) and a reply whose `content` is `None`, on which `strip()` raises (lib/extrator.py:54, 61), do not occur in the model.
- Extractor.ProcessPdfs: its "if and only if" about the no-PDF failure holds only because the collaborators always succeed; in the source the exceptions above can also end the call.
- The exception of lib/extrator.py:38 is the `Failure` value of `Extractor.SelectPdf` and `Extractor.ProcessPdfs`.
- app.py: the billing query `obter_saldo_usado` is an HTTP request with float arithmetic and swallowed exceptions.
- Characters: Python strings hold code points, Dafny strings Unicode scalar values, so lone surrogate code points cannot be represented.
