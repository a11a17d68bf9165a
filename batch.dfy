/**
 * The "Convert Notes" pipeline: the image list is built from the
 * uploaded files and the camera capture, then every image is read by
 * the OCR engine in order, each result appended to one running text
 * under a numbered section header, with a progress report after each.
 */
module Batch {
  import opened Prelude
  import opened Decimal

  /** Where an image came from. */
  datatype Origin = Uploaded(name: string) | Camera

  /** One file as the uploader hands it over. */
  datatype Upload = Upload(name: string, data: seq<byte>)

  /** The camera widget's photo. */
  datatype Capture = Capture(data: seq<byte>)

  /** An opened image; decoding itself is left to the imaging library. */
  datatype Image = Image(origin: Origin, data: seq<byte>)

  function OpenUpload(u: Upload): Image {
    Image(Uploaded(u.name), u.data)
  }

  function OpenCapture(p: Capture): Image {
    Image(Camera, p.data)
  }

  /** The uploads opened one by one, each appended in turn. */
  function OpenUploads(uploaded: seq<Upload>): seq<Image>
    decreases |uploaded|
  {
    if uploaded == [] then []
    else OpenUploads(uploaded[..|uploaded| - 1]) + [OpenUpload(uploaded[|uploaded| - 1])]
  }

  /** The image list: the uploads in upload order, then the capture if there is one. */
  function BuildImages(uploaded: seq<Upload>, picture: Option<Capture>): seq<Image> {
    OpenUploads(uploaded) + (if picture.Some? then [OpenCapture(picture.value)] else [])
  }

  /** The k-th image of the list is the k-th upload, opened. */
  lemma {:induction false} OpenUploadsAt(uploaded: seq<Upload>)
    ensures |OpenUploads(uploaded)| == |uploaded|
    ensures forall k :: 0 <= k < |uploaded| ==> OpenUploads(uploaded)[k] == OpenUpload(uploaded[k])
    decreases |uploaded|
  {
    if uploaded != [] {
      OpenUploadsAt(uploaded[..|uploaded| - 1]);
    }
  }

  /**
   * Uploads keep their order and come first; the capture, when present,
   * is last, so it always gets the highest section number.
   */
  lemma ImageOrder(uploaded: seq<Upload>, picture: Option<Capture>)
    ensures var images := BuildImages(uploaded, picture);
      && |images| == |uploaded| + (if picture.Some? then 1 else 0)
      && (forall k :: 0 <= k < |uploaded| ==> images[k] == OpenUpload(uploaded[k]))
      && (picture.Some? ==> images[|images| - 1] == OpenCapture(picture.value))
      && (forall k :: 0 <= k < |images| ==> (images[k].origin == Camera <==> picture.Some? && k == |images| - 1))
  {
    OpenUploadsAt(uploaded);
  }

  /** Builds the list as the script does, appending to an initially empty list. */
  method CollectImages(uploaded: seq<Upload>, picture: Option<Capture>) returns (images: seq<Image>)
    ensures images == BuildImages(uploaded, picture)
  {
    images := [];
    for i := 0 to |uploaded|
      invariant images == OpenUploads(uploaded[..i])
    {
      assert uploaded[..i + 1][..i] == uploaded[..i];
      images := images + [OpenUpload(uploaded[i])];
    }
    assert uploaded[..|uploaded|] == uploaded;
    if picture.Some? {
      images := images + [OpenCapture(picture.value)];
    }
  }

  /** The header that opens the section of the image numbered `k` (1-based). */
  function Header(k: nat): string {
    "\n\n--- Image " + DecimalString(k) + " ---\n"
  }

  /** The running text after the images have been read in order. */
  function FullText(images: seq<Image>, ocr: Image -> string): string
    decreases |images|
  {
    if images == [] then ""
    else
      var n := |images|;
      FullText(images[..n - 1], ocr) + Header(n) + ocr(images[n - 1])
  }

  /** One section of the extraction: its image number and the recognised text. */
  datatype Section = Section(index: nat, body: string)

  /** The sections of an extraction, one per image, numbered from 1. */
  function Sections(images: seq<Image>, ocr: Image -> string): seq<Section> {
    seq(|images|, k requires 0 <= k < |images| => Section(k + 1, ocr(images[k])))
  }

  /** A list of sections laid out as text, each header immediately followed by its body. */
  function Render(sections: seq<Section>): string
    decreases |sections|
  {
    if sections == [] then ""
    else Header(sections[0].index) + sections[0].body + Render(sections[1..])
  }

  lemma {:induction false} RenderAppend(sections: seq<Section>, last: Section)
    ensures Render(sections + [last]) == Render(sections) + Header(last.index) + last.body
    decreases |sections|
  {
    if sections == [] {
      assert [last][1..] == [];
    } else {
      assert (sections + [last])[1..] == sections[1..] + [last];
      RenderAppend(sections[1..], last);
    }
  }

  /**
   * The accumulated text is the in-order layout of the sections 1..N:
   * exactly one header per image, numbered consecutively, each followed
   * by that image's text (an empty text still gets its header).
   */
  lemma {:induction false} FullTextIsRendered(images: seq<Image>, ocr: Image -> string)
    ensures FullText(images, ocr) == Render(Sections(images, ocr))
    ensures |Sections(images, ocr)| == |images|
    ensures forall k :: 0 <= k < |images| ==> Sections(images, ocr)[k].index == k + 1
    decreases |images|
  {
    if images != [] {
      var n := |images|;
      FullTextIsRendered(images[..n - 1], ocr);
      assert Sections(images, ocr) == Sections(images[..n - 1], ocr) + [Section(n, ocr(images[n - 1]))];
      RenderAppend(Sections(images[..n - 1], ocr), Section(n, ocr(images[n - 1])));
    }
  }

  /** Reading fewer images gives a prefix of the full text. */
  lemma {:induction false} FullTextPrefix(images: seq<Image>, ocr: Image -> string, j: nat)
    requires j <= |images|
    ensures FullText(images[..j], ocr) <= FullText(images, ocr)
    decreases |images|
  {
    if j < |images| {
      var n := |images|;
      assert images[..n - 1][..j] == images[..j];
      FullTextPrefix(images[..n - 1], ocr, j);
    } else {
      assert images[..j] == images;
    }
  }

  /** Where the section of the (k+1)-th image starts in the full text. */
  function Offset(images: seq<Image>, ocr: Image -> string, k: nat): nat
    requires k <= |images|
  {
    |FullText(images[..k], ocr)|
  }

  /**
   * In the full text, the header of image k+1 stands at its section's
   * offset and the recognised text of image k+1 fills the rest of the
   * section, up to where the next section starts.
   */
  lemma SectionAt(images: seq<Image>, ocr: Image -> string, k: nat)
    requires k < |images|
    ensures var t := FullText(images, ocr);
      var p := Offset(images, ocr, k);
      var h := |Header(k + 1)|;
      && p + h <= Offset(images, ocr, k + 1) <= |t|
      && t[p..p + h] == Header(k + 1)
      && t[p + h..Offset(images, ocr, k + 1)] == ocr(images[k])
  {
    var t := FullText(images, ocr);
    var u := FullText(images[..k + 1], ocr);
    FullTextPrefix(images, ocr, k + 1);
    assert images[..k + 1][..k] == images[..k];
    assert u == FullText(images[..k], ocr) + Header(k + 1) + ocr(images[k]);
    assert t[..|u|] == u;
  }

  /** Section offsets strictly increase with the image number. */
  lemma {:induction false} OffsetsIncrease(images: seq<Image>, ocr: Image -> string, j: nat, k: nat)
    requires j < k <= |images|
    ensures Offset(images, ocr, j) < Offset(images, ocr, k)
    decreases k - j
  {
    assert images[..k][..k - 1] == images[..k - 1];
    assert FullText(images[..k], ocr) == FullText(images[..k - 1], ocr) + Header(k) + ocr(images[k - 1]);
    if j < k - 1 {
      OffsetsIncrease(images, ocr, j, k - 1);
    }
  }

  /** Sections are told apart by their headers: distinct numbers, distinct headers. */
  lemma HeadersDistinct(j: nat, k: nat)
    requires Header(j) == Header(k)
    ensures j == k
  {
    var pre := "\n\n--- Image ";
    var hj, hk := Header(j), Header(k);
    assert |DecimalString(j)| == |DecimalString(k)|;
    assert hj[|pre|..|pre| + |DecimalString(j)|] == DecimalString(j);
    assert hk[|pre|..|pre| + |DecimalString(k)|] == DecimalString(k);
    DecimalInjective(j, k);
  }

  /** A progress report: `done` of `total` images read. */
  datatype Progress = Progress(done: nat, total: nat)

  /**
   * Reads every image in order, accumulating the labelled text; reports
   * progress 0 of N before the first image and k of N after the k-th.
   */
  method RunBatch(images: seq<Image>, ocr: Image -> string) returns (fullText: string, progress: seq<Progress>)
    requires |images| > 0
    ensures fullText == FullText(images, ocr)
    ensures |progress| == |images| + 1
    ensures forall k :: 0 <= k < |progress| ==> progress[k] == Progress(k, |images|)
    ensures progress[|images|] == Progress(|images|, |images|)
  {
    var n := |images|;
    fullText := "";
    progress := [Progress(0, n)];
    for i := 0 to n
      invariant fullText == FullText(images[..i], ocr)
      invariant |progress| == i + 1
      invariant forall k :: 0 <= k < |progress| ==> progress[k] == Progress(k, n)
    {
      var extracted := ocr(images[i]);
      assert images[..i + 1][..i] == images[..i];
      fullText := fullText + Header(i + 1) + extracted;
      progress := progress + [Progress(i + 1, n)];
    }
    assert images[..n] == images;
  }

  /** Progress never goes backwards during a batch. */
  lemma ProgressMonotone(progress: seq<Progress>, n: nat, i: nat, j: nat)
    requires |progress| == n + 1
    requires forall k :: 0 <= k < |progress| ==> progress[k] == Progress(k, n)
    requires i <= j <= n
    ensures progress[i].done <= progress[j].done && progress[j].done <= progress[j].total
  {
  }

  lemma FirstHeaders()
    ensures Header(1) == "\n\n--- Image 1 ---\n" && Header(2) == "\n\n--- Image 2 ---\n"
  {
    assert DecimalString(1) == "1" && DecimalString(2) == "2";
  }

  /** Two images read as "Hello" and "World" give the two labelled sections in order. */
  lemma TwoImageExample(a: Image, b: Image, ocr: Image -> string)
    requires ocr(a) == "Hello" && ocr(b) == "World"
    ensures FullText([a, b], ocr) == "\n\n--- Image 1 ---\nHello\n\n--- Image 2 ---\nWorld"
  {
    FirstHeaders();
    assert [a][..0] == [] && FullText([], ocr) == "";
    assert FullText([a], ocr) == Header(1) + "Hello";
    assert [a, b][..1] == [a];
    assert FullText([a, b], ocr) == Header(1) + "Hello" + Header(2) + "World";
  }
}
