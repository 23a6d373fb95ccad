/**
 * The decision logic of the plugin class in src/main.ts: the policy constants,
 * `getMimeType`, the image-file filter of `resizeAllImages`, the clipboard scan
 * of `handlePaste` and what a paste then writes, inserts and reports.
 *
 * Vault calls (`getAvailablePathForAttachments`, `writeBinary`,
 * `getAbstractFileByPath`) are reduced to the outcomes a `PasteHost` value
 * reports; the inserted link and the timestamped file name are not modelled.
 */
module Plugin {
  import opened Wrappers
  import opened Text
  import opened ImageResizer

  const MaxWidth: nat := 1920
  const MaxHeight: nat := 1080
  const JpegQuality: real := 0.92

  // ---------------------------------------------------------------------------
  // Extension to MIME type

  /** The extension to MIME type table of `getMimeType`. */
  const MimeTypeTable: map<string, string> := map[
    "png" := "image/png",
    "jpg" := "image/jpeg",
    "jpeg" := "image/jpeg",
    "webp" := "image/webp",
    "gif" := "image/gif",
    "bmp" := "image/bmp"
  ]

  /** `getMimeType`: looks up the lower-cased extension, with `image/png` as the default. */
  function GetMimeType(extension: string): (mimeType: string)
    ensures StartsWith(mimeType, "image/")
    ensures Lower(extension) !in MimeTypeTable ==> mimeType == "image/png"
  {
    var key := Lower(extension);
    if key in MimeTypeTable then MimeTypeTable[key] else "image/png"
  }

  /** The lookup ignores case: an extension and its lower-cased form get the same type. */
  lemma GetMimeTypeIgnoresCase(extension: string)
    ensures GetMimeType(extension) == GetMimeType(Lower(extension))
  {
    LowerIdempotent(extension);
  }

  /** Upper- and mixed-case extensions find their table entry. */
  lemma GetMimeTypeCaseExamples()
    ensures GetMimeType("PNG") == "image/png"
    ensures GetMimeType("JPEG") == "image/jpeg"
    ensures GetMimeType("Webp") == "image/webp"
  {
    assert Lower("PNG") == "png";
    assert Lower("JPEG") == "jpeg";
    assert Lower("Webp") == "webp";
  }

  /**
   * Round trip through the two tables: an extension of the table comes back
   * from `getExtensionForMimeType(getMimeType(e))` unchanged, except that `jpeg`
   * comes back as `jpg`; every other extension comes back as `png`.
   */
  lemma ExtensionRoundTrip(extension: string)
    ensures ExtensionForMimeType(GetMimeType(extension))
            == if Lower(extension) == "jpeg" then "jpg"
               else if Lower(extension) in MimeTypeTable then Lower(extension)
               else "png"
  {
    var key := Lower(extension);
    if key in MimeTypeTable {
      assert key in {"png", "jpg", "jpeg", "webp", "gif", "bmp"};
    }
  }

  /**
   * The other direction: the five MIME types both tables know come back
   * unchanged, `image/jpg` comes back as `image/jpeg`, and `image/svg+xml`
   * (which `getMimeType` does not know) comes back as `image/png`.
   */
  lemma MimeTypeRoundTrip(mimeType: string)
    ensures mimeType in {"image/png", "image/jpeg", "image/webp", "image/gif", "image/bmp"}
            ==> GetMimeType(ExtensionForMimeType(mimeType)) == mimeType
    ensures GetMimeType(ExtensionForMimeType("image/jpg")) == "image/jpeg"
    ensures GetMimeType(ExtensionForMimeType("image/svg+xml")) == "image/png"
  {
    ExtensionsLowerCase();
    assert ExtensionForMimeType("image/jpg") == "jpg";
    assert ExtensionForMimeType("image/svg+xml") == "svg";
    if mimeType == "image/png" {
      assert ExtensionForMimeType(mimeType) == "png";
    } else if mimeType == "image/jpeg" {
      assert ExtensionForMimeType(mimeType) == "jpg";
    } else if mimeType == "image/webp" {
      assert ExtensionForMimeType(mimeType) == "webp";
    } else if mimeType == "image/gif" {
      assert ExtensionForMimeType(mimeType) == "gif";
    } else if mimeType == "image/bmp" {
      assert ExtensionForMimeType(mimeType) == "bmp";
    }
  }

  /** `getMimeType` of each extension `getExtensionForMimeType` returns (all lower case). */
  lemma ExtensionsLowerCase()
    ensures GetMimeType("png") == "image/png" && GetMimeType("jpg") == "image/jpeg"
    ensures GetMimeType("webp") == "image/webp" && GetMimeType("gif") == "image/gif"
    ensures GetMimeType("bmp") == "image/bmp" && GetMimeType("svg") == "image/png"
  {
    assert Lower("png") == "png" by { assert NoUpperCase("png"); }
    assert Lower("jpg") == "jpg" by { assert NoUpperCase("jpg"); }
    assert Lower("webp") == "webp" by { assert NoUpperCase("webp"); }
    assert Lower("gif") == "gif" by { assert NoUpperCase("gif"); }
    assert Lower("bmp") == "bmp" by { assert NoUpperCase("bmp"); }
    assert Lower("svg") == "svg" by { assert NoUpperCase("svg"); }
  }

  // ---------------------------------------------------------------------------
  // The image-file filter of resizeAllImages

  /** A vault file (`TFile`): its path, its name and its extension as Obsidian reports them. */
  datatype VaultFile = VaultFile(path: string, name: string, extension: string)

  const ImageExtensions: seq<string> := ["png", "jpg", "jpeg", "webp", "gif", "bmp"]

  /** `imageExtensions.includes(file.extension.toLowerCase())`. */
  predicate IsImageFile(file: VaultFile)
  {
    Lower(file.extension) in ImageExtensions
  }

  /** `allFiles.filter(...)`: the image files, in vault order. */
  function FilterImageFiles(files: seq<VaultFile>): (images: seq<VaultFile>)
    ensures |images| <= |files|
    ensures forall f :: f in images <==> f in files && IsImageFile(f)
  {
    if files == [] then []
    else (if IsImageFile(files[0]) then [files[0]] else []) + FilterImageFiles(files[1..])
  }

  /** The filter distributes over concatenation, so it keeps the files in their order. */
  lemma {:induction false} FilterConcat(a: seq<VaultFile>, b: seq<VaultFile>)
    ensures FilterImageFiles(a + b) == FilterImageFiles(a) + FilterImageFiles(b)
  {
    if a != [] {
      assert (a + b)[0] == a[0];
      assert (a + b)[1..] == a[1..] + b;
      FilterConcat(a[1..], b);
    } else {
      assert a + b == b;
    }
  }

  /** Filtering twice is filtering once. */
  lemma {:induction false} FilterIdempotent(files: seq<VaultFile>)
    ensures FilterImageFiles(FilterImageFiles(files)) == FilterImageFiles(files)
  {
    if files != [] {
      var head := if IsImageFile(files[0]) then [files[0]] else [];
      FilterConcat(head, FilterImageFiles(files[1..]));
      FilterIdempotent(files[1..]);
    }
  }

  /**
   * The six image extensions are exactly the keys of the MIME table, so a file
   * that passes the filter never falls back to the default type.
   */
  lemma FilteredFileHasKnownType(file: VaultFile)
    requires IsImageFile(file)
    ensures Lower(file.extension) in MimeTypeTable
    ensures GetMimeType(file.extension) == MimeTypeTable[Lower(file.extension)]
  {
  }

  // ---------------------------------------------------------------------------
  // The clipboard scan of handlePaste

  /** A `DataTransferItem`: `kind`, `type` and what `getAsFile()` returns. */
  datatype ClipboardItem = ClipboardItem(kind: string, mimeType: string, file: Option<ImageFile>)

  /** The item is an image file the handler can take. */
  predicate IsPastedImage(item: ClipboardItem)
  {
    item.kind == "file" && StartsWith(item.mimeType, "image/") && item.file.Some?
  }

  /** The file of the first item that is a pasted image, if there is one. */
  function FirstImageFile(items: seq<ClipboardItem>): (imageFile: Option<ImageFile>)
    ensures imageFile.Some? ==> exists item :: item in items && IsPastedImage(item) && item.file == imageFile
    ensures (exists item :: item in items && IsPastedImage(item)) ==> imageFile.Some?
  {
    if items == [] then None
    else if IsPastedImage(items[0]) then items[0].file
    else FirstImageFile(items[1..])
  }

  /** FirstImageFile picks the first matching item, and finds nothing only when nothing matches. */
  lemma {:induction false} FirstImageFileIsFirst(items: seq<ClipboardItem>)
    ensures FirstImageFile(items).None? <==> forall i :: 0 <= i < |items| ==> !IsPastedImage(items[i])
    ensures FirstImageFile(items).Some? ==>
      exists k :: && 0 <= k < |items| && IsPastedImage(items[k])
                  && items[k].file == FirstImageFile(items)
                  && forall j :: 0 <= j < k ==> !IsPastedImage(items[j])
  {
    if items != [] && !IsPastedImage(items[0]) {
      FirstImageFileIsFirst(items[1..]);
      if FirstImageFile(items).Some? {
        var k :| && 0 <= k < |items[1..]| && IsPastedImage(items[1..][k])
                 && items[1..][k].file == FirstImageFile(items[1..])
                 && forall j :: 0 <= j < k ==> !IsPastedImage(items[1..][j]);
        assert IsPastedImage(items[k + 1]);
        assert forall j :: 0 <= j < k + 1 ==> !IsPastedImage(items[j]) by {
          forall j | 0 <= j < k + 1 ensures !IsPastedImage(items[j]) {
            if j > 0 {
              assert items[j] == items[1..][j - 1];
            }
          }
        }
      }
    }
  }

  /** The indexed loop over `items` that stops at the first image file. */
  method ScanClipboard(items: seq<ClipboardItem>) returns (imageFile: Option<ImageFile>)
    ensures imageFile == FirstImageFile(items)
    ensures imageFile.None? <==> forall i :: 0 <= i < |items| ==> !IsPastedImage(items[i])
  {
    imageFile := None;
    var i := 0;
    while i < |items|
      invariant 0 <= i <= |items|
      invariant imageFile == None
      invariant FirstImageFile(items) == FirstImageFile(items[i..])
      invariant forall j :: 0 <= j < i ==> !IsPastedImage(items[j])
    {
      var item := items[i];
      if item.kind == "file" && StartsWith(item.mimeType, "image/") {
        var file := item.file;
        if file.Some? {
          imageFile := file;
          break;
        }
      }
      assert items[i..][1..] == items[i + 1..];
      i := i + 1;
    }
  }

  // ---------------------------------------------------------------------------
  // What a paste does

  /** The paste event: whether another handler already took it, and `clipboardData?.items`. */
  datatype PasteEvent = PasteEvent(defaultPrevented: bool, items: Option<seq<ClipboardItem>>)

  /**
   * What the vault reports while saving a pasted image.
   *  - saveError: the message of an exception from resolving the attachment path
   *    or from `writeBinary`, if one is thrown.
   *  - fileFound: `getAbstractFileByPath` finds the written file.
   */
  datatype PasteHost = PasteHost(saveError: Option<string>, fileFound: bool)

  /** What the paste handler ends with. */
  datatype PasteOutcome =
      /** The handler returns before `preventDefault`: the editor pastes as usual. */
    | DefaultPaste
      /** `preventDefault` was called and the catch block shows this notice; nothing is inserted. */
    | PasteFailed(notice: string)
      /** The bytes were written but the file was not found: no link, an error notice. */
    | SavedWithoutLink(written: Bytes, extension: string)
      /** The bytes were written and a link inserted; `reductionShown` says whether the size notice appears. */
    | LinkInserted(written: Bytes, extension: string, reductionShown: bool)

  /** The prefix of every failure notice of the paste handler. */
  const FailureNoticePrefix: string := "Failed to resize image: "

  /**
   * The paste handler after an image file was found: resize it with the plugin's
   * policy, name it after the ORIGINAL file's MIME type, save the resized blob,
   * insert a link, and report a size reduction only when the blob got smaller.
   */
  function SavePastedImage(imageFile: ImageFile, canvas: Canvas, host: PasteHost): (outcome: PasteOutcome)
    ensures outcome != DefaultPaste
    ensures var r := ResizeImage(imageFile, MaxWidth, MaxHeight, JpegQuality, canvas);
      && (r.Failure? ==> outcome == PasteFailed(FailureNoticePrefix + Message(r.error)))
      && (r.Success? && host.saveError.Some? ==> outcome == PasteFailed(FailureNoticePrefix + host.saveError.value))
      && (r.Success? && host.saveError.None? ==>
            && (outcome.SavedWithoutLink? || outcome.LinkInserted?)
            && (outcome.LinkInserted? <==> host.fileFound)
            && outcome.extension == ExtensionForMimeType(imageFile.mimeType)
            && outcome.written == ResultBlob(imageFile, r.value).data)
    ensures outcome.LinkInserted? ==> (outcome.reductionShown <==> |outcome.written| < |imageFile.data|)
  {
    match ResizeImage(imageFile, MaxWidth, MaxHeight, JpegQuality, canvas)
    case Failure(e) => PasteFailed(FailureNoticePrefix + Message(e))
    case Success(r) =>
      var resizedBlob := ResultBlob(imageFile, r);
      var extension := ExtensionForMimeType(imageFile.mimeType);
      match host.saveError
      case Some(message) => PasteFailed(FailureNoticePrefix + message)
      case None =>
        if !host.fileFound then SavedWithoutLink(resizedBlob.data, extension)
        else LinkInserted(resizedBlob.data, extension, |resizedBlob.data| < |imageFile.data|)
  }

  /**
   * A pasted image that already fits is saved byte for byte, and no size
   * reduction is reported for it.
   */
  lemma FittingPasteKeepsBytes(imageFile: ImageFile, canvas: Canvas, host: PasteHost)
    requires canvas.decode(imageFile.data).Some?
    requires FitsWithin(canvas.decode(imageFile.data).value, MaxWidth, MaxHeight)
    requires host.saveError.None?
    ensures var outcome := SavePastedImage(imageFile, canvas, host);
      && outcome.written == imageFile.data
      && (outcome.LinkInserted? ==> !outcome.reductionShown)
  {
  }

  /**
   * A pasted image larger than the bounds, once the canvas and the encoder
   * succeed, is saved as the encoded blob, drawn at the target size (which fits
   * the bounds) and requested in the output type chosen from the original type.
   */
  lemma LargePasteSavesResampledBlob(imageFile: ImageFile, canvas: Canvas, host: PasteHost)
    requires canvas.decode(imageFile.data).Some?
    requires !FitsWithin(canvas.decode(imageFile.data).value, MaxWidth, MaxHeight)
    requires canvas.context(TargetSize(canvas.decode(imageFile.data).value, MaxWidth, MaxHeight))
    requires host.saveError.None?
    ensures var size := TargetSize(canvas.decode(imageFile.data).value, MaxWidth, MaxHeight);
      var encoded := canvas.encode(imageFile.data, size, OutputType(imageFile.mimeType), JpegQuality);
      && FitsWithin(size, MaxWidth, MaxHeight)
      && (encoded.Some? ==> SavePastedImage(imageFile, canvas, host).written == encoded.value)
      && (encoded.None? ==> SavePastedImage(imageFile, canvas, host)
                            == PasteFailed(FailureNoticePrefix + Message(EncodeFailed)))
  {
    var d := canvas.decode(imageFile.data).value;
    var size := TargetSize(d, MaxWidth, MaxHeight);
    var outputType := OutputType(imageFile.mimeType);
    var encoded := canvas.encode(imageFile.data, size, outputType, JpegQuality);
    var r := ResizeImage(imageFile, MaxWidth, MaxHeight, JpegQuality, canvas);
    TargetSizeFits(d, MaxWidth, MaxHeight);
    UnchangedIffFits(d, MaxWidth, MaxHeight);
    if encoded.Some? {
      assert r == Success(Resampled(encoded.value, size, outputType));
    } else {
      assert r == Failure(EncodeFailed);
    }
  }

  /** `handlePaste`: the guards, the clipboard scan, then SavePastedImage on the file found. */
  method HandlePaste(evt: PasteEvent, canvas: Canvas, host: PasteHost) returns (outcome: PasteOutcome)
    ensures outcome == DefaultPaste <==>
      evt.defaultPrevented || evt.items.None? || FirstImageFile(evt.items.value).None?
    ensures !evt.defaultPrevented && evt.items.Some? && FirstImageFile(evt.items.value).Some? ==>
      outcome == SavePastedImage(FirstImageFile(evt.items.value).value, canvas, host)
  {
    if evt.defaultPrevented {
      return DefaultPaste;
    }
    if evt.items.None? {
      return DefaultPaste;
    }
    var imageFile := ScanClipboard(evt.items.value);
    if imageFile.None? {
      return DefaultPaste;
    }
    outcome := SavePastedImage(imageFile.value, canvas, host);
  }
}
