# PIR_CurveTools core, modelled in Dafny

PIR_CurveTools reads a CSV or Excel sheet and lets a user pick a column.
Each cell of that column holds comma-separated numbers, and the tool draws
one chart image per row. It comes with two front ends:

- a Flask backend, `app.py`, with `upload_file` and `process` routes;
- a Streamlit page, `streamlit_app.py`, with `process_data` and a copy of
  its loop inside the page.

Both carry the same helpers: `parse_data`, `sanitize_filename` and
`plot_chart`.

This project models those helpers, the upload extension check of both
front ends, the per-row batch and the parameter and error handling of the
Flask `process` route. Each piece lives in its own module:

- `StrOps` (strops.dfy): the Python string built-ins the code relies on, each characterised by its contract and the lemmas after it:
  - `strip`, `split`, `replace` and `lower`;
  - `str(int)`;
  - `os.path.join`.
- `Filename` (filename.dfy): `sanitize_filename` as a loop of `replace` passes (`SanitizeFilename`), its specification `Sanitize`, and the image file name `<safe name>.png`.
- `CellParse` (parse.dfy): `parse_data`.
  - A cell is text or another pandas value. `float()` is the parameter `toNumber`, a partial conversion.
  - `ParseData` and `KeepValues` are the source's loop. `Parsed` and `Accepted` specify them.
- `Plot` (chart.dfy): the decisions of `plot_chart`: whether a figure is drawn, its kind, its title and its points. Both front ends' versions are modelled and proved equal.
- `Upload` (upload.dfy): the extension check.
  - `ValidateUpload` is Flask's check, using `rsplit('.', 1)[-1].lower()`.
  - `ReaderFor` is Streamlit's check, using `split('.')[-1].lower()`.
  - Both forms are proved to pick the same extension and the same reader.
- `Batch` (batch.dfy): the per-row loop.
  - `ProcessRows` is the Flask loop, with the preview. `ProcessData` is the Streamlit loop.
  - Both are proved against `Results` and `FirstFigure`, which collect each row's `RowOutcome` in row order.
- `Route` (route.dfy): the `process` route.
  - A missing session id or data column is refused first.
  - The outcome of finding and reading the uploaded file is the parameter `load`.
  - A loaded sheet runs the batch into the session's output directory.

## Model

| member | source | states |
|---|---|---|
| Filename.SanitizeFilename | app.py:48-55 | the loop over the nine illegal characters yields min(len, 200) characters; position i is `_` when input i is illegal and input i otherwise; the result equals `Sanitize` |
| Filename.Sanitize | streamlit_app.py:71-80 | the sanitized name has length min(len, 200) and holds none of `<>:"/\|?*` |
| Filename.SanitizeIdempotent | app.py:48-55 | sanitizing a sanitized name changes nothing |
| Filename.SanitizeFixedPoints | app.py:50-55 | a name is returned unchanged exactly when it has no illegal character and at most 200 characters |
| Filename.ImageName | app.py:203 | the image file name `<safe name>.png` has no illegal character and no `/`, ends in `.png` and has at most 204 characters |
| Filename.ImageNameCollision | streamlit_app.py:98 | two different row names, `a:b` and `a?b`, get the same image file name |
| CellParse.ParseData | app.py:31-45 | a non-text or empty cell gives `[]`; otherwise the result is `Parsed`: the accepted pieces' values after unwrapping and splitting on commas |
| CellParse.KeepValues | app.py:37-45 | the loop over the pieces returns exactly the values of the pieces that are non-empty after trimming and that the conversion accepts, in order |
| CellParse.AcceptedSelects | app.py:38-44 | value k is the conversion of the k-th kept piece; kept piece indices increase; a piece is kept exactly when its conversion succeeds |
| CellParse.KeptIndices | app.py:38-44 | the indices of the kept pieces are in range and strictly increasing |
| CellParse.AcceptedBound | app.py:37-45 | no more values than pieces |
| CellParse.ParsedBound | app.py:36-45 | a text cell yields at most (number of commas after unwrapping) + 1 values |
| CellParse.AcceptedAppend | app.py:38-44 | the pieces are handled one at a time: the values of a + b are those of a followed by those of b |
| CellParse.NumeralList | streamlit_app.py:27-38 | numerals joined by commas, each accepted by the conversion, parse to their values in order and nothing else |
| CellParse.UnwrapNumerals | streamlit_app.py:27 | the strip of whitespace, `"` and `'` leaves a text of digits, minus signs, points and commas unchanged |
| CellParse.DocumentedSample | streamlit_app.py:415 | the sample cell `0,0,-1,0,1,1,1,1` parses to the eight values 0,0,-1,0,1,1,1,1 |
| CellParse.QuotesStrippedInOrder | streamlit_app.py:27 | a numeral inside `'` inside `"` is unwrapped completely and gives its value |
| CellParse.UnwrapSingleKeepsDouble | streamlit_app.py:27 | because `"` is stripped before `'`, a `"` inside a `'` survives the unwrapping |
| CellParse.InnerQuotesKept | streamlit_app.py:27-37 | such a surviving `"` stays in the piece, and a conversion that rejects quoted text drops it, giving no values |
| Plot.PlotChart | streamlit_app.py:40-61 | no figure exactly for no values; the points are the values; `bar` and `scatter` pick their kinds and every other type a line; the title is `<row name> - <kind's word>` |
| Plot.TableLabel | app.py:65-66 | the label table with its line-chart default gives the word of the kind drawn: `bar` and `scatter` theirs, every other type the line word |
| Plot.PlotChartLabelled | app.py:58-77 | no figure exactly for no values; the points are the values |
| Plot.PlotChartsAgree | app.py:65-77 | the Flask version, with its kind from the drawing branches and its word from the label table, equals the Streamlit version for every input |
| Plot.UnknownTypeIsLine | streamlit_app.py:59-61 | any type other than `bar` and `scatter` gives a line chart titled `<row name> - 折线图` |
| Plot.LabelInjective | app.py:65 | the three kind words are different |
| Plot.TitleDeterminesKind | app.py:77 | for one row name, equal titles mean equal chart kinds |
| Upload.Extension | app.py:111 | the extension is a dot-free suffix of the name, preceded by `.` unless it is the whole name |
| Upload.LastDotPieceUnique | app.py:111 | only one text has that property, so it defines the extension |
| Upload.SplitFormAgrees | streamlit_app.py:208 | `split('.')[-1]` is the same text as `rsplit('.', 1)[-1]` for every name |
| Upload.ExtensionAfterDot | app.py:111 | the extension of `stem.ext` is `ext`, whatever dots the stem holds |
| Upload.ExtensionWithoutDot | app.py:111 | a name without a dot is its own extension |
| Upload.ValidateUpload | app.py:104-113 | a missing file part and an empty name are refused, in that order; a named file is accepted exactly when its lower-cased extension is csv, xlsx or xls |
| Upload.LastPiece | streamlit_app.py:208 | the last piece of `split('.')` holds no dot |
| Upload.FlaskReader | app.py:112-127 | an extension is refused only as unsupported; the CSV reader is chosen exactly for `csv` and the Excel reader exactly for `xlsx` and `xls` |
| Upload.StreamlitReader | streamlit_app.py:210-216 | a reader is chosen exactly for `csv`, `xlsx` and `xls`, the CSV reader exactly for `csv` |
| Upload.ReaderFor | streamlit_app.py:208-216 | a reader is chosen only for a non-empty name |
| Upload.ReadersAgree | app.py:112-127 | on an extension, both front ends accept the same ones and pick the same reader, and the CSV reader is picked exactly for `csv` |
| Upload.UploadFrontEndsAgree | streamlit_app.py:208-216 | for every named file, the Flask check accepts it exactly when the Streamlit page picks a reader, and both use the same reader |
| Upload.UpperCaseAccepted | app.py:111-125 | `STEM.CSV` is accepted and read as CSV |
| Upload.DotlessNameAccepted | app.py:111-125 | a file named just `csv` is accepted, because the whole name is taken as its extension |
| Upload.TrailingDotRefused | app.py:111-113 | a name ending in `.` has an empty extension and is refused |
| Batch.RowLabel | app.py:190 | the default name is `row_` followed by digits without a leading zero whose decimal value is the row index + 2 |
| Batch.RowLabelDetermined | app.py:190 | `row_` followed by any canonical digits of value idx + 2 is exactly the default name of row idx |
| Batch.RowName | app.py:187-190 | with a usable name column the row's name is its printed cell; otherwise it is `row_` and canonical digits of the row index + 2 |
| Batch.DefaultNamesStartAtTwo | streamlit_app.py:254 | the first two default names are `row_2` and `row_3`, and their image files `row_2.png` and `row_3.png` |
| Batch.DefaultImageNamesDistinct | streamlit_app.py:95-98 | without a name column, different rows write different image files |
| Batch.RowOutcomeFields | app.py:186-220 | a row yields an entry exactly when its data cell parses to some values; the entry carries number idx + 2, the row's name, the value count ≥ 1, `sanitize(name).png` and that name joined to the output directory; the figure is `plot_chart`'s |
| Batch.ProcessRows | app.py:183-220 | the Flask loop returns exactly `Results` (every producing row's entry, in order) and as preview `FirstFigure` (the first figure drawn) |
| Batch.ProcessData | streamlit_app.py:82-132 | the Streamlit loop returns exactly `Results` |
| Batch.CollectedStep | streamlit_app.py:309-318 | one more row appends its entry, if any, and keeps an earlier preview |
| Batch.ResultsInRowOrder | streamlit_app.py:90-130 | each entry is the outcome of the row its number names; row numbers strictly increase; a row has an entry exactly when its data cell gives values |
| Batch.ResultFields | app.py:212-220 | every entry has a row number in range, its row's name, a value count ≥ 1 equal to the parsed length, `sanitize(name).png` as file name and the joined file path |
| Batch.ResultsBound | streamlit_app.py:90-130 | at most one entry per row |
| Batch.MissingDataColumn | streamlit_app.py:101-102 | a data column the sheet does not have gives no entries |
| Batch.ImageInOutputDir | streamlit_app.py:117 | the file name is non-empty and holds no `/`; the image path is `<output dir>/<file name>`, or `<output dir><file name>` when the directory already ends in `/`; for an empty directory it is the bare file name, which is only what the join computes, since the program never gets that far |
| Batch.PreviewIsFirstEntry | app.py:206-210 | a preview exists exactly when there are entries, and it is the figure of the first entry's row |
| Batch.SharedImagePath | streamlit_app.py:117-129 | two rows named `a:b` and `a?b` write to the same image path |
| Batch.CollectedIncreasing | app.py:212-214 | entries appended in row order have strictly increasing row numbers |
| Batch.CollectedCovers | app.py:198-212 | a row position has an entry exactly when its outcome is present |
| Batch.FirstOfIsFirstEntry | app.py:206-208 | the first figure kept belongs to the first entry appended |
| Route.Process | app.py:144-227 | a missing or empty session id or data column gives the missing-parameter error whatever the upload; otherwise each load outcome (expired session, missing upload, read failure) gives its own error; a loaded sheet gives `total` = number of entries, the batch's entries and its first figure as preview |
| StrOps.Strip | app.py:35 | what is left neither starts nor ends with a stripped character, and a string with none to strip is kept |
| StrOps.StripRemovesEnds | app.py:35 | the result is the untouched text of the input between an offset a and a + length, and everything before and after it is a stripped character |
| CellParse.UnwrapInfix | app.py:35 | the three strips of a cell's text leave an untouched infix of it, so spaces and quotes inside are kept, and only whitespace, `"` and `'` are cut from the two ends |
| StrOps.Split | app.py:36 | a split gives at least one piece |
| StrOps.ReplaceAll | app.py:52 | every occurrence of the character is rewritten and nothing else changes |
| StrOps.SplitCount | app.py:36 | a split gives one more piece than there are separators |
| StrOps.SplitSeparatorFree | app.py:36 | no piece holds the separator |
| StrOps.JoinSplit | app.py:36 | joining the pieces with the separator gives the text back |
| StrOps.SplitJoin | app.py:36 | splitting the join of separator-free pieces gives those pieces back |
| StrOps.LowerAscii | app.py:111 | ASCII capitals become lower case; nothing else changes |
| StrOps.NatToString | app.py:190 | the decimal digits of a number read back as that number, and there is no leading zero except in `0` itself |
| StrOps.CanonicalDecimalUnique | app.py:190 | a digit text without leading zeros is the printed form of its value and of no other number |
| StrOps.NatToStringInjective | app.py:190 | different numbers print differently |
| StrOps.PathJoin | streamlit_app.py:117 | a relative name is joined below a directory with one `/`, added only when the directory is non-empty and does not end in `/`; an absolute name replaces the directory |

## Left out

- Flask routes, request and JSON plumbing, HTTP status codes and the Streamlit widgets, metrics and progress bar are not modelled. They are framework glue. The error messages are the `ProcessError` and `UploadError` constructors.
- File-system work is not modelled: `makedirs`, `rmtree`, `listdir`, `save`, `savefig`, the uuid session directory, the zip packaging and the download and preview routes. In `Route.Process`, looking up and reading the upload is the parameter `load`.
- pandas is not modelled: `read_csv`, `read_excel` and what `str()` prints for a non-text cell. A cell is `Text` or `NonText` with its printed form.
- Python's `float()` is the parameter `toNumber`. Its grammar (`inf`, `nan`, exponents, underscores) and floating-point rounding are not modelled, and values are `real`.
- The `min_value`, `max_value` and `mean_value` statistics and their `:.2f` formatting are not modelled, because they are floating-point output.
- Drawing is not modelled: matplotlib, the colour, the figure size and `fig_to_base64`. A figure is its kind, title and points. The Flask preview is that figure, not its base64 PNG.
- Batch.RowLabel: assumes the sheet's rows carry pandas' default index 0, 1, 2, … as read, so a row's index is its position.
- StrOps.LowerAscii: lower-cases only ASCII letters. Python's `str.lower` also maps other scripts, but no allowed extension depends on that.
- StrOps.PathJoin: follows POSIX `os.path.join`. Windows drive letters and backslashes are not modelled.
- Route.Process: the request fields are optional strings. A JSON `null` `chart_type` or non-string parameters are not modelled.
- The Flask result entries have no `file_path` key. The model keeps the path in every entry, as the Streamlit entries do.
- Batch.DefaultImageNamesDistinct: requires default names of at most 200 characters. A longer default name would need a row index with about 196 digits.
- Batch.ProcessData: assumes the output folder can be created. An empty folder name makes `os.makedirs('')` raise: `process_data` fails before its first row (streamlit_app.py:84-85), and the page's copy of the loop fails on the first row with values (streamlit_app.py:298-299), the error being shown at streamlit_app.py:397-399. The model returns entries with bare file names in that case instead. The Flask folder joins the session id below the output root and is never empty.
- Batch.ProcessRows: assumes every image write succeeds, and so do Batch.ProcessData and Route.Process. In the source a failing `savefig` ends the whole request (app.py:204, streamlit_app.py:118, streamlit_app.py:306). Examples are a file name over 255 bytes, which 84 CJK characters and `.png` exceed, and a NUL in the name. Flask answers with a server error, and the Streamlit page shows the error (streamlit_app.py:397-399).
- CellParse.InnerQuotesKept: requires that the conversion reject the quoted piece, as `float()` does.
- The sidebar and the page text around the inlined Streamlit loop (streamlit_app.py:263-330) are not modelled. The loop itself is `Batch.ProcessData`, except that it creates the output folder lazily.
