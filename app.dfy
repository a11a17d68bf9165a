/**
 * The per-browser-session state of the app: the conversion history,
 * created empty when the session starts, grown by one entry for each
 * extraction and emptied by "Clear History".
 */
module App {
  import opened Prelude
  import opened Batch
  import opened Export

  /** The wall-clock time of an extraction, already formatted; the model treats it as opaque. */
  type Timestamp = string

  /** One past conversion: when it ran and the text the OCR produced. */
  datatype Entry = Entry(timestamp: Timestamp, text: string)

  class Session {
    /** Past conversions, oldest first. */
    var history: seq<Entry>

    /** A new session starts with no history. */
    constructor ()
      ensures history == []
    {
      history := [];
    }

    /**
     * Reads `images` and records the result. With no image nothing
     * happens; otherwise the accumulated text is returned together with
     * the progress reports, and exactly one entry holding that text is
     * appended, the earlier entries untouched.
     */
    method Extract(images: seq<Image>, ocr: Image -> string, ts: Timestamp)
      returns (extracted: Option<string>, progress: seq<Progress>)
      modifies this
      ensures |images| == 0 ==> extracted == None && progress == [] && history == old(history)
      ensures |images| > 0 ==>
        && extracted == Some(FullText(images, ocr))
        && |progress| == |images| + 1
        && (forall k :: 0 <= k < |progress| ==> progress[k] == Progress(k, |images|))
        && history == old(history) + [Entry(ts, FullText(images, ocr))]
    {
      extracted, progress := None, [];
      if |images| > 0 {
        var fullText;
        fullText, progress := RunBatch(images, ocr);
        history := history + [Entry(ts, fullText)];
        extracted := Some(fullText);
      }
    }

    /** "Clear History": the history is empty afterwards, whatever it held. */
    method ClearHistory()
      modifies this
      ensures history == []
    {
      history := [];
    }

    /**
     * One pass of the "Convert Notes" tab: collect the images, extract and
     * record, then offer the download for the chosen format. `edit` is what
     * the user typed into the editor, None when the extracted text was left
     * as shown. The history records the extracted text; only the download
     * sees the edit.
     */
    method Convert(uploaded: seq<Upload>, picture: Option<Capture>, ocr: Image -> string,
                   ts: Timestamp, edit: Option<string>, option: string)
      returns (extracted: Option<string>, download: Option<Download>)
      modifies this
      ensures var images := BuildImages(uploaded, picture);
        if |images| == 0 then
          extracted == None && download == None && history == old(history)
        else
          && extracted == Some(FullText(images, ocr))
          && history == old(history) + [Entry(ts, FullText(images, ocr))]
          && download == Dispatch(option, edit.GetOr(FullText(images, ocr)))
    {
      var images := CollectImages(uploaded, picture);
      var progress;
      extracted, progress := Extract(images, ocr, ts);
      download := None;
      if extracted.Some? {
        var shown := edit.GetOr(extracted.value);
        download := Dispatch(option, shown);
      }
    }
  }

  /** A client of the session: two extractions, then a clear. */
  method SessionExample(a: Image, b: Image, c: Image)
  {
    var s := new Session();
    var ocr := (img: Image) => if img == a then "Hello" else "World";
    var t, p := s.Extract([a, b], ocr, "18-10-2026 10:00:00");
    assert |s.history| == 1 && s.history[0].text == FullText([a, b], ocr);
    t, p := s.Extract([], ocr, "18-10-2026 10:01:00");
    assert |s.history| == 1 && t == None;
    t, p := s.Extract([c], ocr, "18-10-2026 10:02:00");
    assert |s.history| == 2 && s.history[0].text == FullText([a, b], ocr);
    s.ClearHistory();
    assert s.history == [];
  }
}
