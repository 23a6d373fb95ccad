/**
 * The batch mode of src/main.ts: `resizeAllImages` (filter, nothing-found
 * notice, confirmation) and `processAllImages`, the loop that resizes each
 * image file, applies the skip rule, writes the smaller files back and keeps
 * the counters for the final summary.
 *
 * Vault reads and writes are the functions of a `Vault` value, keyed by path.
 */
module Batch {
  import opened Wrappers
  import opened Text
  import opened ImageResizer
  import opened Plugin

  /**
   * The vault adapter: `readBinary(path)` (None when it throws) and whether
   * `writeBinary(path, bytes)` completes.
   */
  datatype Vault = Vault(read: string -> Option<Bytes>, writeSucceeds: (string, Bytes) -> bool)

  /**
   * Object identity in the loop body: the blob built from the bytes read, the
   * `File` wrapped around it and handed to `resizeImage`, or a blob made by
   * `toBlob`.
   */
  datatype BlobRef = ReadBlob | WrappedFile | CanvasBlob

  /** The object `resizeImage` resolves with: its own input when unchanged, else a new blob. */
  function ReturnedObject(r: ResizeResult): BlobRef
  {
    if r.Unchanged? then WrappedFile else CanvasBlob
  }

  /** `resizedBlob.size >= originalSize * 0.95`, in exact arithmetic. */
  predicate SavingsTooSmall(resizedSize: nat, originalSize: nat): (tooSmall: bool)
    ensures tooSmall <==> resizedSize as real >= originalSize as real * 0.95
  {
    100 * resizedSize >= 95 * originalSize
  }

  /** How one iteration of the loop ends. */
  datatype FileOutcome =
      /** An exception reached the catch block: read, resize or write failed. */
    | Errored
      /** The skip rule held; nothing was written. */
    | Skipped
      /** The resized bytes were written back, saving `savings` bytes. */
    | Written(data: Bytes, savings: nat)

  /** The body of the loop of `processAllImages` for one file. */
  function ProcessFile(file: VaultFile, vault: Vault, canvas: Canvas): (outcome: FileOutcome)
    ensures outcome.Written? ==>
      && vault.read(file.path).Some?
      && var original := vault.read(file.path).value;
      && !SavingsTooSmall(|outcome.data|, |original|)
      && vault.writeSucceeds(file.path, outcome.data)
      && outcome.savings == |original| - |outcome.data|
      && 20 * outcome.savings > |original|
      && outcome.savings > 0
    ensures vault.read(file.path).None? ==> outcome == Errored
    ensures vault.read(file.path).Some? ==>
      var bytes := vault.read(file.path).value;
      var imageFile := ImageFile(bytes, GetMimeType(file.extension));
      var resized := ResizeImage(imageFile, MaxWidth, MaxHeight, JpegQuality, canvas);
      && (resized.Failure? ==> outcome == Errored)
      && (resized.Success? ==>
            var data := ResultBlob(imageFile, resized.value).data;
            && (data == if resized.value.Unchanged? then bytes else resized.value.data)
            && (outcome == Skipped <==> SavingsTooSmall(|data|, |bytes|))
            && (!SavingsTooSmall(|data|, |bytes|) && vault.writeSucceeds(file.path, data) ==>
                  outcome == Written(data, |bytes| - |data|))
            && (!SavingsTooSmall(|data|, |bytes|) && !vault.writeSucceeds(file.path, data) ==>
                  outcome == Errored))
  {
    match vault.read(file.path)
    case None => Errored
    case Some(bytes) =>
      var imageFile := ImageFile(bytes, GetMimeType(file.extension));
      match ResizeImage(imageFile, MaxWidth, MaxHeight, JpegQuality, canvas)
      case Failure(_) => Errored
      case Success(r) =>
        var resizedBlob := ResultBlob(imageFile, r);
        if ReturnedObject(r) == ReadBlob || SavingsTooSmall(|resizedBlob.data|, |bytes|) then Skipped
        else if !vault.writeSucceeds(file.path, resizedBlob.data) then Errored
        else Written(resizedBlob.data, |bytes| - |resizedBlob.data|)
  }

  /**
   * The identity half of the skip rule never fires, so the size test alone
   * decides: once read and resize succeed, the file is skipped exactly when the
   * result is not at least 5% smaller than the original.
   */
  lemma SkipDecidedBySize(file: VaultFile, vault: Vault, canvas: Canvas)
    requires vault.read(file.path).Some?
    requires ResizeImage(ImageFile(vault.read(file.path).value, GetMimeType(file.extension)),
                         MaxWidth, MaxHeight, JpegQuality, canvas).Success?
    ensures var bytes := vault.read(file.path).value;
      var imageFile := ImageFile(bytes, GetMimeType(file.extension));
      var r := ResizeImage(imageFile, MaxWidth, MaxHeight, JpegQuality, canvas).value;
      && ReturnedObject(r) != ReadBlob
      && (ProcessFile(file, vault, canvas) == Skipped
          <==> SavingsTooSmall(|ResultBlob(imageFile, r).data|, |bytes|))
  {
  }

  /** An image that already fits is skipped (by the size test) and never rewritten. */
  lemma FittingImageSkipped(file: VaultFile, vault: Vault, canvas: Canvas)
    requires vault.read(file.path).Some?
    requires canvas.decode(vault.read(file.path).value).Some?
    requires FitsWithin(canvas.decode(vault.read(file.path).value).value, MaxWidth, MaxHeight)
    ensures ProcessFile(file, vault, canvas) == Skipped
  {
    var imageFile := ImageFile(vault.read(file.path).value, GetMimeType(file.extension));
    assert ResizeImage(imageFile, MaxWidth, MaxHeight, JpegQuality, canvas) == Success(Unchanged);
  }

  // ---------------------------------------------------------------------------
  // The counters

  /** The counters of `processAllImages`. */
  datatype Summary = Summary(processed: nat, resized: nat, skipped: nat, errors: nat, totalSavings: int)

  /** The counter updates one loop iteration makes for the given outcome. */
  function Count(s: Summary, outcome: FileOutcome): (next: Summary)
    ensures next.resized + next.skipped + next.errors == s.resized + s.skipped + s.errors + 1
    ensures next.processed - s.processed == (next.resized + next.skipped) - (s.resized + s.skipped)
    ensures next.resized >= s.resized
    ensures SavesBytes(outcome) ==> next.totalSavings - s.totalSavings >= next.resized - s.resized
  {
    match outcome
    case Errored => s.(errors := s.errors + 1)
    case Skipped => s.(skipped := s.skipped + 1, processed := s.processed + 1)
    case Written(_, savings) =>
      s.(resized := s.resized + 1, totalSavings := s.totalSavings + savings, processed := s.processed + 1)
  }

  /** The counters after the loop has run over the given outcomes, in order. */
  function Tally(outcomes: seq<FileOutcome>): (s: Summary)
    ensures s.resized + s.skipped + s.errors == |outcomes|
    ensures s.resized <= |outcomes|
  {
    if outcomes == [] then Summary(0, 0, 0, 0, 0)
    else Count(Tally(outcomes[..|outcomes| - 1]), outcomes[|outcomes| - 1])
  }

  /** Every written file saved at least one byte (what ProcessFile guarantees). */
  predicate SavesBytes(outcome: FileOutcome)
  {
    outcome.Written? ==> outcome.savings > 0
  }

  /** The three ways a file can end, as the counter it lands in. */
  datatype OutcomeKind = ErrorKind | SkipKind | WriteKind

  function KindOf(outcome: FileOutcome): OutcomeKind
  {
    match outcome
    case Errored => ErrorKind
    case Skipped => SkipKind
    case Written(_, _) => WriteKind
  }

  /** How many of the outcomes are of the given kind, counted from the front. */
  function NumberOf(outcomes: seq<FileOutcome>, kind: OutcomeKind): nat
  {
    if outcomes == [] then 0
    else (if KindOf(outcomes[0]) == kind then 1 else 0) + NumberOf(outcomes[1..], kind)
  }

  /** The savings of the written files among the outcomes, added up from the front. */
  function SumSavings(outcomes: seq<FileOutcome>): int
  {
    if outcomes == [] then 0
    else (if outcomes[0].Written? then outcomes[0].savings else 0) + SumSavings(outcomes[1..])
  }

  lemma {:induction false} NumberOfAppend(outcomes: seq<FileOutcome>, last: FileOutcome, kind: OutcomeKind)
    ensures NumberOf(outcomes + [last], kind) == NumberOf(outcomes, kind) + NumberOf([last], kind)
  {
    if outcomes == [] {
      assert outcomes + [last] == [last];
    } else {
      assert (outcomes + [last])[1..] == outcomes[1..] + [last];
      NumberOfAppend(outcomes[1..], last, kind);
    }
  }

  lemma {:induction false} SumSavingsAppend(outcomes: seq<FileOutcome>, last: FileOutcome)
    ensures SumSavings(outcomes + [last]) == SumSavings(outcomes) + SumSavings([last])
  {
    if outcomes == [] {
      assert outcomes + [last] == [last];
    } else {
      assert (outcomes + [last])[1..] == outcomes[1..] + [last];
      SumSavingsAppend(outcomes[1..], last);
    }
  }

  /**
   * Every file lands in exactly one counter: errors counts the failed files,
   * skipped the skipped ones and resized the written ones. The processed count
   * is resized plus skipped, the total saving is the sum of the written files'
   * savings, and so at least one byte per resized file.
   */
  lemma {:induction false} TallyAccounts(outcomes: seq<FileOutcome>)
    requires forall i :: 0 <= i < |outcomes| ==> SavesBytes(outcomes[i])
    ensures var s := Tally(outcomes);
      && s.errors == NumberOf(outcomes, ErrorKind)
      && s.skipped == NumberOf(outcomes, SkipKind)
      && s.resized == NumberOf(outcomes, WriteKind)
      && s.totalSavings == SumSavings(outcomes)
      && s.resized + s.skipped + s.errors == |outcomes|
      && s.processed == s.resized + s.skipped
      && s.totalSavings >= s.resized
  {
    if outcomes != [] {
      var init, last := outcomes[..|outcomes| - 1], outcomes[|outcomes| - 1];
      TallyAccounts(init);
      assert outcomes == init + [last];
      NumberOfAppend(init, last, ErrorKind);
      NumberOfAppend(init, last, SkipKind);
      NumberOfAppend(init, last, WriteKind);
      SumSavingsAppend(init, last);
    }
  }

  /** The total saving never goes down as the loop advances, and rises with each written file. */
  lemma {:induction false} SavingsGrow(outcomes: seq<FileOutcome>, i: nat, j: nat)
    requires i <= j <= |outcomes|
    requires forall k :: 0 <= k < |outcomes| ==> SavesBytes(outcomes[k])
    ensures Tally(outcomes[..i]).resized <= Tally(outcomes[..j]).resized
    ensures Tally(outcomes[..i]).totalSavings + Tally(outcomes[..j]).resized - Tally(outcomes[..i]).resized
            <= Tally(outcomes[..j]).totalSavings
    ensures Tally(outcomes[..i]).totalSavings <= Tally(outcomes[..j]).totalSavings
  {
    if i < j {
      SavingsGrow(outcomes, i, j - 1);
      assert outcomes[..j][..j - 1] == outcomes[..j - 1];
      assert SavesBytes(outcomes[j - 1]);
    }
  }

  /** The outcome of each file, in order. */
  function Outcomes(files: seq<VaultFile>, vault: Vault, canvas: Canvas): seq<FileOutcome>
  {
    seq(|files|, i requires 0 <= i < |files| => ProcessFile(files[i], vault, canvas))
  }

  /** One more file adds its outcome to the counters. */
  lemma TallyStep(files: seq<VaultFile>, i: nat, vault: Vault, canvas: Canvas)
    requires i < |files|
    ensures Tally(Outcomes(files[..i + 1], vault, canvas))
            == Count(Tally(Outcomes(files[..i], vault, canvas)), ProcessFile(files[i], vault, canvas))
  {
    var done := Outcomes(files[..i + 1], vault, canvas);
    assert done[..i] == Outcomes(files[..i], vault, canvas);
  }

  /** `processAllImages`: the loop over the image files and its five counters. */
  method ProcessAllImages(imageFiles: seq<VaultFile>, vault: Vault, canvas: Canvas) returns (summary: Summary)
    ensures summary == Tally(Outcomes(imageFiles, vault, canvas))
    ensures summary.resized + summary.skipped + summary.errors == |imageFiles|
    ensures summary.processed == summary.resized + summary.skipped
    ensures summary.totalSavings >= summary.resized
  {
    var processed, resized, skipped, totalSavings, errors := 0, 0, 0, 0, 0;
    for i := 0 to |imageFiles|
      invariant Summary(processed, resized, skipped, errors, totalSavings)
                == Tally(Outcomes(imageFiles[..i], vault, canvas))
      invariant resized + skipped + errors == i
      invariant processed == resized + skipped
      invariant totalSavings >= resized
    {
      var outcome := ProcessFile(imageFiles[i], vault, canvas);
      match outcome {
        case Errored =>
          errors := errors + 1;
        case Skipped =>
          skipped := skipped + 1;
          processed := processed + 1;
        case Written(_, savings) =>
          resized := resized + 1;
          totalSavings := totalSavings + savings;
          processed := processed + 1;
      }
      TallyStep(imageFiles, i, vault, canvas);
    }
    assert imageFiles[..|imageFiles|] == imageFiles;
    summary := Summary(processed, resized, skipped, errors, totalSavings);
  }

  // ---------------------------------------------------------------------------
  // resizeAllImages and the summary notice

  /** How the batch command ends. */
  datatype BatchOutcome =
      /** No image files: the "No images found in vault" notice. */
    | NoImagesFound
      /** The confirmation modal, announcing `count` images, was cancelled. */
    | Cancelled(count: nat)
      /** The modal was confirmed and the loop ran. */
    | Completed(summary: Summary)

  /**
   * `resizeAllImages`: filter the vault's files, stop when there is no image,
   * otherwise ask for confirmation (`confirmed` is the user's answer) and run
   * the loop over the image files.
   */
  method ResizeAllImages(allFiles: seq<VaultFile>, confirmed: bool, vault: Vault, canvas: Canvas)
    returns (outcome: BatchOutcome)
    ensures outcome == NoImagesFound <==> forall f :: f in allFiles ==> !IsImageFile(f)
    ensures outcome.Cancelled? ==> !confirmed && outcome.count == |FilterImageFiles(allFiles)|
    ensures outcome.Completed? <==> confirmed && exists f :: f in allFiles && IsImageFile(f)
    ensures outcome.Completed? ==>
      && outcome.summary == Tally(Outcomes(FilterImageFiles(allFiles), vault, canvas))
      && outcome.summary.resized + outcome.summary.skipped + outcome.summary.errors
         == |FilterImageFiles(allFiles)|
  {
    var imageFiles := FilterImageFiles(allFiles);
    if |imageFiles| == 0 {
      return NoImagesFound;
    }
    assert imageFiles[0] in allFiles;
    if !confirmed {
      return Cancelled(|imageFiles|);
    }
    var summary := ProcessAllImages(imageFiles, vault, canvas);
    outcome := Completed(summary);
  }

  /** `(bytes / 1024 / 1024).toFixed(2)` as a count of hundredths: the nearest one, ties upward. */
  function HundredthsOfMegabyte(bytes: nat): (n: nat)
    ensures -524288 < 1048576 * n - 100 * bytes <= 524288
  {
    (200 * bytes + 1048576) / 2097152
  }

  /** `(bytes / 1024 / 1024).toFixed(2)`: whole megabytes, a point and two digits. */
  function MegabytesText(bytes: nat): (text: string)
    ensures |text| >= 4 && text[|text| - 3] == '.'
    ensures text[..|text| - 3] == DecimalText(HundredthsOfMegabyte(bytes) / 100)
    ensures AllDigits(text[..|text| - 3]) && AllDigits(text[|text| - 2..])
    ensures DecimalValue(text[..|text| - 3]) * 100 + DecimalValue(text[|text| - 2..])
            == HundredthsOfMegabyte(bytes)
  {
    var n := HundredthsOfMegabyte(bytes);
    var whole := DecimalText(n / 100);
    var fraction := TwoDigits(n % 100);
    var text := whole + "." + fraction;
    assert text[..|text| - 3] == whole;
    assert text[|text| - 2..] == fraction;
    DecimalRoundTrip(n / 100);
    text
  }

  /** The lines of the final notice, joined with newlines by the source. */
  function SummaryLines(s: Summary): (lines: seq<string>)
    requires s.totalSavings >= 0
    ensures |lines| == 5 && lines[0] == "Batch resize complete!"
    ensures lines[1] == "Resized: " + DecimalText(s.resized)
    ensures lines[2] == "Skipped: " + DecimalText(s.skipped)
    ensures lines[3] == "Errors: " + DecimalText(s.errors)
    ensures StartsWith(lines[1], "Resized: ") && AllDigits(lines[1][9..])
      && DecimalValue(lines[1][9..]) == s.resized
    ensures StartsWith(lines[2], "Skipped: ") && AllDigits(lines[2][9..])
      && DecimalValue(lines[2][9..]) == s.skipped
    ensures StartsWith(lines[3], "Errors: ") && AllDigits(lines[3][8..])
      && DecimalValue(lines[3][8..]) == s.errors
    ensures lines[4] == "Space saved: " + MegabytesText(s.totalSavings) + "MB"
  {
    var resizedLine := "Resized: " + DecimalText(s.resized);
    var skippedLine := "Skipped: " + DecimalText(s.skipped);
    var errorsLine := "Errors: " + DecimalText(s.errors);
    assert resizedLine[9..] == DecimalText(s.resized);
    assert skippedLine[9..] == DecimalText(s.skipped);
    assert errorsLine[8..] == DecimalText(s.errors);
    DecimalRoundTrip(s.resized);
    DecimalRoundTrip(s.skipped);
    DecimalRoundTrip(s.errors);
    [ "Batch resize complete!",
      resizedLine,
      skippedLine,
      errorsLine,
      "Space saved: " + MegabytesText(s.totalSavings) + "MB" ]
  }
}
