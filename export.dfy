/**
 * "Save Your File": the format picked on the radio button decides the
 * download's file name, MIME type and payload, always built from the
 * text as the user left it in the editor.
 */
module Export {
  import opened Prelude
  import Utf8
  import opened Lines

  datatype Format = PlainText | Word | Pdf

  /** The radio button's caption for each format. */
  function Label(f: Format): string {
    match f
    case PlainText => "Text (.txt)"
    case Word => "Word (.docx)"
    case Pdf => "PDF (.pdf)"
  }

  /** The if/elif chain over the radio's value: the format whose caption it is, if any. */
  function FormatOfLabel(option: string): (r: Option<Format>)
    ensures r.Some? ==> Label(r.value) == option
    ensures r.None? ==> forall f :: Label(f) != option
  {
    if option == "Text (.txt)" then Some(PlainText)
    else if option == "Word (.docx)" then Some(Word)
    else if option == "PDF (.pdf)" then Some(Pdf)
    else None
  }

  function Extension(f: Format): string {
    match f
    case PlainText => ".txt"
    case Word => ".docx"
    case Pdf => ".pdf"
  }

  function FileName(f: Format): string {
    "notes" + Extension(f)
  }

  function Mime(f: Format): string {
    match f
    case PlainText => "text/plain"
    case Word => "application/vnd.openxmlformats-officedocument.wordprocessingml.document"
    case Pdf => "application/pdf"
  }

  /**
   * What is handed to the download button. The word document is shown by
   * its paragraphs and the PDF by its cells, one per line; their byte
   * serialisation belongs to the document libraries.
   */
  datatype Payload =
    | TextBytes(bytes: seq<byte>)
    | WordDocument(paragraphs: seq<string>)
    | PdfDocument(cells: seq<string>)

  datatype Download = Download(fileName: string, mime: string, payload: Payload)

  /**
   * The download for `text` in format `f`. Plain text is the UTF-8 bytes
   * of the text, which decode back to it; the word document is a single
   * paragraph holding the whole text; the PDF gets one cell per line of
   * the text, and the cells joined by newlines are the text again.
   */
  function Export(text: string, f: Format): (d: Download)
    ensures d.fileName == "notes" + Extension(f) && d.mime == Mime(f)
    ensures f == PlainText ==> d.payload.TextBytes? && Utf8.Decode(d.payload.bytes) == Some(text)
    ensures f == Word ==> d.payload == WordDocument([text])
    ensures f == Pdf ==> && d.payload.PdfDocument?
                         && JoinLines(d.payload.cells) == text
                         && |d.payload.cells| == NewlineCount(text) + 1
                         && (forall k :: 0 <= k < |d.payload.cells| ==> NewlineFree(d.payload.cells[k]))
  {
    var payload := match f
      case PlainText => TextBytes(Utf8.Encode(text))
      case Word => WordDocument([text])
      case Pdf => PdfDocument(SplitLines(text));
    Utf8.RoundTrip(text);
    JoinSplit(text);
    Download(FileName(f), Mime(f), payload)
  }

  /** The radio's value selects the export; a value that is no caption offers no download. */
  function Dispatch(option: string, text: string): (r: Option<Download>)
    ensures forall f :: Label(f) == option ==> r == Some(Export(text, f))
    ensures (forall f :: Label(f) != option) ==> r == None
  {
    match FormatOfLabel(option)
    case Some(f) => Some(Export(text, f))
    case None => None
  }

  /** Each caption names the extension of the file it downloads. */
  lemma LabelShowsExtension(f: Format)
    ensures var l, e := Label(f), Extension(f);
      |l| >= |e| + 2 && l[|l| - |e| - 2..] == "(" + e + ")" && FileName(f)[5..] == e
  {
  }

  /** The three formats download under distinct names and distinct MIME types. */
  lemma ExportsDistinct(f: Format, g: Format, text: string)
    requires f != g
    ensures Export(text, f).fileName != Export(text, g).fileName
    ensures Export(text, f).mime != Export(text, g).mime
  {
    assert FileName(f)[5..] == Extension(f) && FileName(g)[5..] == Extension(g);
  }

  /** Exporting the PDF cells of a text that came from the same lines restores those lines. */
  lemma PdfCellsOfLines(lines: seq<string>)
    requires |lines| >= 1
    requires forall k :: 0 <= k < |lines| ==> NewlineFree(lines[k])
    ensures Export(JoinLines(lines), Pdf).payload == PdfDocument(lines)
  {
    SplitJoin(lines);
  }

  /**
   * ASCII text (such as "line1\nline2") exports as plain text to exactly
   * its characters' code points, one byte each, newlines included.
   */
  lemma PlainTextAscii(text: string)
    requires forall i :: 0 <= i < |text| ==> text[i] as int < 0x80
    ensures var p := Export(text, PlainText).payload;
      && |p.bytes| == |text|
      && forall i :: 0 <= i < |text| ==> p.bytes[i] as int == text[i] as int
  {
    Utf8.AsciiEncoding(text);
  }
}
