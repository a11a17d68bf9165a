# Handwritten notes to text: the conversion core

A model of the application logic of `app.py`, a Streamlit app that reads
handwritten note images with an OCR engine, shows the recognised text for
editing and offers it for download as plain text, a word document or a PDF.
Almost all of the script is widgets and library calls; what is modelled is
the app's own orchestration:

- **Image list** (module `Batch`): the uploaded files, opened in upload
  order, followed by the camera capture when there is one.
- **Batch extraction** (module `Batch`): a loop over the image list that
  appends `"\n\n--- Image k ---\n"` and the OCR text of image k to a running
  string, reporting progress as the integer pair (k, N) after each image
  (and (0, N) before the first). The OCR engine is a parameter
  `ocr: Image -> string`. The number in the header is rendered as Python
  renders an int (module `Decimal`).
- **History** (module `App`, class `Session`): a list of
  `{timestamp, text}` entries, empty when the session starts; a non-empty
  extraction appends one entry holding the extracted (not the edited) text,
  and "Clear History" empties it.
- **Export** (module `Export`): the radio caption selects a fixed file name
  and MIME type; the plain-text payload is the UTF-8 encoding of the edited
  text (module `Utf8`, with a strict decoder proved to invert it), the word
  document is one paragraph holding the text, and the PDF gets one cell per
  piece of `text.split("\n")` (module `Lines`, with `"\n".join` proved to
  invert it).

## Model

| member | source | states |
|---|---|---|
| `Decimal.DecimalString` | app.py:72 | the section number `{i+1}` is a non-empty run of ASCII digits with no leading zero |
| `Decimal.DecimalRoundTrip` | app.py:72 | reading the digits of a rendered number gives the number back |
| `Decimal.DecimalInjective` | app.py:72 | distinct section numbers render to distinct texts |
| `Batch.OpenUploadsAt` | app.py:44-47 | the k-th opened image is the k-th uploaded file, and there is one per file |
| `Batch.ImageOrder` | app.py:35-56 | the image list is the uploads in upload order followed by the capture if present; the capture is the only camera image and is last, so it gets the highest section number |
| `Batch.CollectImages` | app.py:35-56 | appending the uploads one by one and then the capture builds exactly the image list of `BuildImages` |
| `Batch.RunBatch` | app.py:62-74 | after the loop the accumulated text is `FullText` of the images, and the progress reports are (0, N), (1, N), ..., (N, N) |
| `Batch.FullTextIsRendered` | app.py:62-72 | the accumulated text is the in-order layout of exactly N sections numbered 1..N, each a header followed by that image's OCR text |
| `Batch.FullTextPrefix` | app.py:62-72 | the text after reading the first j images is a prefix of the final text (sections are only ever appended) |
| `Batch.SectionAt` | app.py:65-72 | in the final text the header of image k+1 stands at that section's offset and is followed by exactly that image's OCR text (possibly empty) up to the next section |
| `Batch.OffsetsIncrease` | app.py:65-72 | section offsets strictly increase with the image number, so headers appear in order 1..N |
| `Batch.HeadersDistinct` | app.py:72 | two section headers are equal only when their numbers are |
| `Batch.ProgressMonotone` | app.py:63-74 | the progress reports never decrease and never exceed the total |
| `Batch.TwoImageExample` | app.py:65-72 | images read as "Hello" and "World" give `"\n\n--- Image 1 ---\nHello\n\n--- Image 2 ---\nWorld"` |
| `Utf8.Encode` | app.py:99 | the UTF-8 encoding takes between one and four bytes per character |
| `Utf8.RoundTrip` | app.py:99 | decoding the UTF-8 bytes of a text gives exactly that text |
| `Utf8.EncodeInjective` | app.py:99 | different texts have different UTF-8 encodings |
| `Utf8.AsciiEncoding` | app.py:99 | ASCII text encodes to one byte per character equal to its code point |
| `Lines.SplitLines` | app.py:126 | `split("\n")` gives one more piece than there are newlines, and no piece contains a newline |
| `Lines.JoinSplit` | app.py:126 | joining the pieces with newlines restores the text |
| `Lines.SplitJoin` | app.py:126 | splitting a newline join of newline-free pieces gives those pieces back |
| `Export.FormatOfLabel` | app.py:89-121 | the radio value selects the format whose caption it is, and none when it is no caption |
| `Export.Export` | app.py:95-136 | each format downloads as `notes` plus its extension with its fixed MIME type; the text payload decodes back to the edited text, the word document is one paragraph of it, and the PDF cells are newline-free and join back to it |
| `Export.Dispatch` | app.py:95-136 | the download offered is the export in the format whose caption was chosen, and none for any other value |
| `Export.LabelShowsExtension` | app.py:89-136 | each caption ends in the parenthesised extension of the file it downloads |
| `Export.ExportsDistinct` | app.py:96-136 | the three formats download under distinct file names and distinct MIME types |
| `Export.PdfCellsOfLines` | app.py:126-127 | the PDF of a text built from newline-free lines has exactly those lines as cells |
| `Export.PlainTextAscii` | app.py:99 | an ASCII text such as `"line1\nline2"` exports as its code points, one byte each |
| `App.Session.constructor` | app.py:22-23 | a new session has an empty history |
| `App.Session.Extract` | app.py:59-82 | no images: nothing extracted and the history unchanged; otherwise the full text and progress of `RunBatch` are returned and exactly one entry `(ts, full text)` is appended after the unchanged earlier entries |
| `App.Session.ClearHistory` | app.py:156-157 | the history is empty afterwards, whatever it held |
| `App.Session.Convert` | app.py:35-136 | one pass of the convert tab: the history gains the extracted text while the download is built from the edited text, and nothing happens without images |

## Left out

- Widgets and rendering (page setup, tabs, image previews, messages, the text area, the radio button, download buttons, the history listing) are UI; the user's edit and radio choice are parameters of `App.Session.Convert`.
- Image decoding (`Image.open`) and the numpy conversion are library calls: an opened image keeps its origin and raw bytes; a file that fails to decode is not modelled.
- OCR inference is the parameter `ocr`; a failing OCR call is not modelled.
- `time.sleep` is timing only; the timestamp from the clock is the opaque parameter `ts`.
- Progress is the integer pair (done, total), not the float quotient passed to the progress bar.
- The word document's construction and serialisation are library behaviour: the payload records only its single paragraph.
- The PDF's layout (font, cell wrapping, pages) and its `latin-1` encoding of the output are library behaviour: the payload records only the cells in order; a text the PDF library cannot encode is not modelled.
- Characters are Unicode scalar values, so a Python string holding a lone surrogate, which `encode("utf-8")` rejects, cannot be expressed.
- Streamlit re-executes the whole script on every interaction; `App.Session.Convert` models one execution, so repeated executions over the same images append one entry each, as the script does.
