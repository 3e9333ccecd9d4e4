/** The script's main loop over the discovered images. Decoding and OCR are
    inputs here: for each image, either the decoder failed or the engine
    returned a text. The loop collects one transcript section per decoded
    image in `all_results` and one record per NIK found in `nik_results`. */
module Batch {
  import opened Text
  import opened LineNormalizer
  import opened NikMatcher

  datatype Option<T> = None | Some(value: T)

  /** A discovered image: its file name and, when `cv2.imread` could decode
      it, the text the OCR engine read from the preprocessed image. */
  datatype Image = Image(name: string, ocr: Option<string>)

  /** A row of the NIK table: `{"file": name, "nik": nik}`. */
  datatype NikRecord = NikRecord(file: string, nik: string)

  /** The delimiter line heading an image's section. */
  function Header(name: string): string {
    "===== " + name + " ====="
  }

  /** An image's transcript section: the header, its cleaned lines, and a
      closing line break. */
  function Section(name: string, lines: seq<string>): string {
    Header(name) + "\n" + Join(lines) + "\n"
  }

  /** The cleaned lines of an OCR text. */
  function ImageLines(text: string): seq<string> {
    Normalized(Split(text))
  }

  /** One record per NIK, in the order given, each naming the file. */
  function Tag(name: string, niks: seq<string>): seq<NikRecord> {
    if |niks| == 0 then [] else Tag(name, niks[..|niks| - 1]) + [NikRecord(name, niks[|niks| - 1])]
  }

  /** Tagging keeps the NIKs and their order, and names the file in each. */
  lemma {:induction false} TagAt(name: string, niks: seq<string>)
    ensures |Tag(name, niks)| == |niks|
    ensures forall k :: 0 <= k < |niks| ==> Tag(name, niks)[k] == NikRecord(name, niks[k])
  {
    if |niks| > 0 {
      TagAt(name, niks[..|niks| - 1]);
    }
  }

  /** The records of one image whose OCR text is `text`. */
  function ImageRecords(name: string, text: string): seq<NikRecord> {
    Tag(name, FindAll(Join(ImageLines(text))))
  }

  /** What one image adds to `all_results`: nothing when it did not decode,
      else its section. */
  function SectionsOf(img: Image): seq<string> {
    match img.ocr
    case None => []
    case Some(text) => [Section(img.name, ImageLines(text))]
  }

  /** What one image adds to `nik_results`. */
  function RecordsOf(img: Image): seq<NikRecord> {
    match img.ocr
    case None => []
    case Some(text) => ImageRecords(img.name, text)
  }

  /** What the loop has appended after running over the first `n` images,
      when each image `img` appends `f(img)`. */
  function Collect<T>(f: Image -> seq<T>, images: seq<Image>, n: nat): seq<T>
    requires n <= |images|
  {
    if n == 0 then [] else Collect(f, images, n - 1) + f(images[n - 1])
  }

  /** How many of the first `n` images decoded. */
  function DecodedUpTo(images: seq<Image>, n: nat): nat
    requires n <= |images|
  {
    if n == 0 then 0 else DecodedUpTo(images, n - 1) + (if images[n - 1].ocr.Some? then 1 else 0)
  }

  /** `all_results` after the whole loop. */
  function Transcript(images: seq<Image>): seq<string> {
    Collect(SectionsOf, images, |images|)
  }

  /** `nik_results` after the whole loop. */
  function Records(images: seq<Image>): seq<NikRecord> {
    Collect(RecordsOf, images, |images|)
  }

  /** The loop body for one image: nothing when it does not decode;
      otherwise normalise its OCR text, build its section, and collect one
      record per NIK. */
  method ProcessImage(img: Image) returns (sections: seq<string>, records: seq<NikRecord>)
    ensures sections == SectionsOf(img)
    ensures records == RecordsOf(img)
  {
    if img.ocr.None? {
      return [], [];
    }
    var lines := NormalizeLines(img.ocr.value);
    sections := [Section(img.name, lines)];
    var found := FindAll(Join(lines));
    records := [];
    if |found| > 0 {
      for j := 0 to |found|
        invariant records == Tag(img.name, found[..j])
      {
        assert found[..j + 1][..j] == found[..j];
        records := records + [NikRecord(img.name, found[j])];
      }
      assert found[..|found|] == found;
    }
  }

  /** The main loop over the images, appending what each one adds. */
  method ProcessImages(images: seq<Image>) returns (allResults: seq<string>, nikResults: seq<NikRecord>)
    ensures allResults == Transcript(images)
    ensures nikResults == Records(images)
  {
    allResults := [];
    nikResults := [];
    for i := 0 to |images|
      invariant allResults == Collect(SectionsOf, images, i)
      invariant nikResults == Collect(RecordsOf, images, i)
    {
      var sections, records := ProcessImage(images[i]);
      allResults := allResults + sections;
      nikResults := nikResults + records;
    }
  }

  // ---------------------------------------------------------------------
  // Order and skipping

  /** The first `n` images of `a + b`, for `n` within `a`, are those of `a`. */
  lemma {:induction false} CollectPrefix<T>(f: Image -> seq<T>, a: seq<Image>, b: seq<Image>, n: nat)
    requires n <= |a|
    ensures Collect(f, a + b, n) == Collect(f, a, n)
  {
    if n > 0 {
      CollectPrefix(f, a, b, n - 1);
      assert (a + b)[n - 1] == a[n - 1];
    }
  }

  /** Running on past the end of `a` into `b` appends what `b`'s images add. */
  lemma {:induction false} CollectAppend<T>(f: Image -> seq<T>, a: seq<Image>, b: seq<Image>, n: nat)
    requires n <= |b|
    ensures Collect(f, a + b, |a| + n) == Collect(f, a, |a|) + Collect(f, b, n)
  {
    if n == 0 {
      CollectPrefix(f, a, b, |a|);
    } else {
      CollectAppend(f, a, b, n - 1);
      assert (a + b)[|a| + n - 1] == b[n - 1];
    }
  }

  /** Collecting over `a + b` collects over `a` and then over `b`. */
  lemma CollectConcat<T>(f: Image -> seq<T>, a: seq<Image>, b: seq<Image>)
    ensures Collect(f, a + b, |a + b|) == Collect(f, a, |a|) + Collect(f, b, |b|)
  {
    CollectAppend(f, a, b, |b|);
  }

  /** Processing `a` and then `b` appends `b`'s sections after `a`'s: the
      transcript is the in-order concatenation over the images. */
  lemma TranscriptAppend(a: seq<Image>, b: seq<Image>)
    ensures Transcript(a + b) == Transcript(a) + Transcript(b)
  {
    CollectConcat(SectionsOf, a, b);
  }

  /** Processing `a` and then `b` appends `b`'s records after `a`'s. */
  lemma RecordsAppend(a: seq<Image>, b: seq<Image>)
    ensures Records(a + b) == Records(a) + Records(b)
  {
    CollectConcat(RecordsOf, a, b);
  }

  /** An image that fails to decode adds no section: the images around it
      are processed as if it were absent. */
  lemma SkippedImageTranscript(a: seq<Image>, name: string, b: seq<Image>)
    ensures Transcript(a + [Image(name, None)] + b) == Transcript(a + b)
  {
    var skipped := [Image(name, None)];
    assert Transcript(skipped) == Collect(SectionsOf, skipped, 0) + SectionsOf(skipped[0]) == [];
    TranscriptAppend(a + skipped, b);
    TranscriptAppend(a, skipped);
    TranscriptAppend(a, b);
  }

  /** An image that fails to decode adds no record. */
  lemma SkippedImageRecords(a: seq<Image>, name: string, b: seq<Image>)
    ensures Records(a + [Image(name, None)] + b) == Records(a + b)
  {
    var skipped := [Image(name, None)];
    assert Records(skipped) == Collect(RecordsOf, skipped, 0) + RecordsOf(skipped[0]) == [];
    RecordsAppend(a + skipped, b);
    RecordsAppend(a, skipped);
    RecordsAppend(a, b);
  }

  /** A decoded image adds exactly one section: there are as many sections
      as decoded images. */
  lemma {:induction false} SectionPerDecodedImage(images: seq<Image>, n: nat)
    requires n <= |images|
    ensures |Collect(SectionsOf, images, n)| == DecodedUpTo(images, n)
  {
    if n > 0 {
      SectionPerDecodedImage(images, n - 1);
    }
  }

  /** The records of a single decoded image are its matches, in match order,
      each naming that image; an image with no match adds nothing. */
  lemma OneImage(name: string, text: string)
    ensures Transcript([Image(name, Some(text))]) == [Section(name, ImageLines(text))]
    ensures |Records([Image(name, Some(text))])| == |FindAll(Join(ImageLines(text)))|
    ensures forall k :: 0 <= k < |Records([Image(name, Some(text))])| ==>
      Records([Image(name, Some(text))])[k] == NikRecord(name, FindAll(Join(ImageLines(text)))[k])
  {
    var images := [Image(name, Some(text))];
    assert Transcript(images) == Collect(SectionsOf, images, 0) + SectionsOf(images[0]);
    assert Records(images) == Collect(RecordsOf, images, 0) + RecordsOf(images[0]);
    TagAt(name, FindAll(Join(ImageLines(text))));
  }

  // ---------------------------------------------------------------------
  // What the records hold

  /** Every record holds sixteen digits and names one of the first `n`
      images, one that decoded. */
  lemma {:induction false} RecordsWellFormed(images: seq<Image>, n: nat)
    requires n <= |images|
    ensures forall r :: r in Collect(RecordsOf, images, n) ==>
      IsNik(r.nik) && exists i :: 0 <= i < n && images[i].name == r.file && images[i].ocr.Some?
  {
    if n > 0 {
      RecordsWellFormed(images, n - 1);
      forall r | r in Collect(RecordsOf, images, n)
        ensures IsNik(r.nik)
        ensures exists i :: 0 <= i < n && images[i].name == r.file && images[i].ocr.Some?
      {
        if r !in Collect(RecordsOf, images, n - 1) {
          var img := images[n - 1];
          assert r in RecordsOf(img);
          var found := FindAll(Join(ImageLines(img.ocr.value)));
          TagAt(img.name, found);
          var k :| 0 <= k < |found| && Tag(img.name, found)[k] == r;
          FindAllShape(Join(ImageLines(img.ocr.value)));
          assert images[n - 1].name == r.file;
        }
      }
    }
  }

  /** The NIKs of an image are found line by line: no match spans two of its
      cleaned lines. */
  lemma RecordsPerLine(name: string, text: string)
    ensures ImageRecords(name, text) == Tag(name, MatchesPerLine(ImageLines(text)))
  {
    FindAllJoin(ImageLines(text));
  }

  // ---------------------------------------------------------------------
  // The transcript section

  /** Cleaned lines never hold a line break. */
  lemma ImageLinesBreakFree(text: string)
    ensures NoLineBreaks(ImageLines(text))
  {
    SplitPieces(text);
    NormalizedNoLineBreaks(Split(text), |Split(text)|);
  }

  lemma {:induction false} JoinAppendEmpty(lines: seq<string>)
    requires lines != []
    ensures Join(lines + [""]) == Join(lines) + "\n"
  {
    if |lines| > 1 {
      JoinAppendEmpty(lines[1..]);
      assert (lines + [""])[1..] == lines[1..] + [""];
    }
  }

  /** Splitting a section on line breaks gives back its header, its lines and
      the empty piece after the closing break; a section without lines holds
      one empty line. */
  lemma SectionReadsBack(name: string, text: string)
    requires '\n' !in name
    ensures Split(Section(name, ImageLines(text))) ==
      [Header(name)] + (if ImageLines(text) == [] then [""] else ImageLines(text)) + [""]
  {
    var lines := ImageLines(text);
    ImageLinesBreakFree(text);
    assert '\n' !in Header(name);
    assert Section(name, lines) == Header(name) + "\n" + (Join(lines) + "\n");
    SplitPrefix(Header(name), Join(lines) + "\n");
    if lines == [] {
      assert Join(lines) + "\n" == "" + "\n" + "";
      SplitPrefix("", "");
    } else {
      JoinAppendEmpty(lines);
      SplitJoin(lines + [""]);
    }
  }
}
