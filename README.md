# Image resize on paste: a verified model of its decision and arithmetic core

This project models the core of an Obsidian plugin that shrinks images to fit
within 1920x1080 pixels. It works on images as they are pasted into a note, and
in a batch command over every image in the vault. The model covers:

- the resize engine of `src/imageResizer.ts` (module `ImageResizer`):
  - the scale factor `min(maxWidth / width, maxHeight / height, 1)`;
  - the "unchanged" early return and the rounded target size;
  - the three ways `resizeImage` rejects, in the order the callbacks run;
  - the choice of output MIME type and the MIME type to extension table.
- the plugin class of `src/main.ts`, paste path (module `Plugin`):
  - `getMimeType`, and the filter that picks the vault's image files;
  - the clipboard scan of the paste handler, and what a paste writes,
    inserts and reports.
- the plugin class of `src/main.ts`, batch path (module `Batch`):
  - the batch command, the per-file skip rule, and the counter loop of
    `processAllImages`;
  - the lines of the final summary notice.

The browser's image work is represented by a `Canvas` value holding three
functions: decoding, `getContext('2d')` and `canvas.toBlob`. Vault reads and
writes are the functions of a `Vault` value, and the outcomes of saving a pasted
image form a `PasteHost` value. The model therefore fixes every decision the
plugin makes while the pixels stay abstract.

The scale factor is an exact `real` and `Math.round(x)` is `floor(x + 1/2)`. An
image with a zero extent is included: JavaScript's `maxWidth / 0` is +Infinity,
which never wins the minimum.

Three behaviours of the code that a reader might expect to be otherwise:

- Target sizes are not clamped to at least 1x1: `StripScalesToZeroHeight`
  shows a 100000x1 image scaling to 1920x0.
- The PNG fallback applies only to types that do not start with `image/`, so
  an unusual image type such as `image/tiff` is kept (`OutputTypeExamples`).
- The summary notice is a header line followed by four fields: resized,
  skipped, errors and space saved (`SummaryLines`).

## Model

| member | source | states |
|---|---|---|
| `ImageResizer.ScaleFactor` | src/imageResizer.ts:25-29 | the ratio lies in (0, 1], is at most each of `maxWidth/width` and `maxHeight/height` that exists, and equals 1 or one of them: images are never upscaled |
| `ImageResizer.TargetSize` | src/imageResizer.ts:31-32 | the new size is never larger than the original on either axis, and it is the original size itself when the image fits |
| `ImageResizer.ScaledExtent` | src/imageResizer.ts:31-32 | `Math.round(extent * ratio)` for a ratio of at most 1 is never more than the extent and is within one half of the exact product |
| `ImageResizer.UnchangedIffFits` | src/imageResizer.ts:25-38 | `ratio === 1` holds exactly when `width <= maxWidth && height <= maxHeight`, an image exactly at the bounds included |
| `ImageResizer.FittingSizeKept` | src/imageResizer.ts:25-32 | for an image that fits, the computed new size equals the original size |
| `ImageResizer.TargetSizeFits` | src/imageResizer.ts:25-32 | the new width and height are within the bounds and no larger than the original width and height |
| `ImageResizer.WidthBinds` | src/imageResizer.ts:25-32 | when width is the binding axis, the new width is exactly `maxWidth` and the new height is `(2*h*maxWidth + w) / (2*w)` in integer division |
| `ImageResizer.HeightBinds` | src/imageResizer.ts:25-32 | when height is the binding axis, the new height is exactly `maxHeight` and the new width is `(2*w*maxHeight + h) / (2*h)` |
| `ImageResizer.BindingAxisOnBound` | src/imageResizer.ts:25-32 | a resized image lands exactly on at least one of its two bounds |
| `ImageResizer.AspectRatioKept` | src/imageResizer.ts:31-32 | cross-multiplied, the new size departs from the original proportion by at most half of the binding side (the width when width binds, else the height), hence by at most half of the longer side |
| `ImageResizer.ResizeIdempotent` | src/imageResizer.ts:25-38 | feeding the new size back through the computation takes the unchanged branch and yields the same size |
| `ImageResizer.HalvedUltraHd` | src/imageResizer.ts:25-32 | 3840x2160 under 1920x1080 has ratio 0.5 and becomes exactly 1920x1080 |
| `ImageResizer.StripScalesToZeroHeight` | src/imageResizer.ts:31-32 | no clamp to one pixel: a 100000x1 image gets the new size 1920x0 |
| `ImageResizer.OutputType` | src/imageResizer.ts:59-64 | the output type always starts with `image/`; it is the input type exactly when that starts with `image/`, and `image/png` for every other input |
| `ImageResizer.OutputTypeExamples` | src/imageResizer.ts:59-64 | `image/jpeg` and `image/tiff` are kept; `application/octet-stream` and the empty type become `image/png` |
| `ImageResizer.ResizeImage` | src/imageResizer.ts:15-89 | rejects with "Failed to load image" exactly when decoding fails, and resolves unchanged exactly when the decoded image fits. It rejects for a missing context exactly when the image does not fit and `getContext` fails. A resampled result has the target size, fits the bounds, is no larger than the original, is requested in `OutputType(file.type)` and is the encoder's output. A null blob is the encode failure |
| `ImageResizer.Message` | src/imageResizer.ts:47-85 | every rejection message (lines 47, 72 and 85) reads "Failed to ..." |
| `ImageResizer.ExtensionForMimeType` | src/imageResizer.ts:95-107 | total: every result is one of `png jpg webp gif svg bmp`, and a type outside the table maps to `png` |
| `ImageResizer.ExtensionTableEntries` | src/imageResizer.ts:96-106 | the seven entries exactly (`image/jpeg` and `image/jpg` both to `jpg`), and `png` for every other string |
| `Plugin.GetMimeType` | src/main.ts:204-214 | the result starts with `image/`, and an extension whose lower-cased form is not in the table maps to `image/png` |
| `Text.Lower` | src/main.ts:213 | `toLowerCase` turns each capital into the small letter at the same place in the alphabet, keeps the length and every other character, leaves no capital, and returns a string without capitals unchanged |
| `Plugin.GetMimeTypeCaseExamples` | src/main.ts:213 | `PNG`, `JPEG` and `Webp` find the entries of `png`, `jpeg` and `webp` |
| `Plugin.GetMimeTypeIgnoresCase` | src/main.ts:213 | `getMimeType(e) == getMimeType(e.toLowerCase())` |
| `Plugin.ExtensionRoundTrip` | src/main.ts:204-214 | `getExtensionForMimeType(getMimeType(e))` gives back `e` lower-cased for the table's extensions, `jpg` for `jpeg`, and `png` for anything else |
| `Plugin.MimeTypeRoundTrip` | src/main.ts:204-214 | `image/png/jpeg/webp/gif/bmp` survive the reverse round trip, `image/jpg` becomes `image/jpeg`, and `image/svg+xml` becomes `image/png` |
| `Plugin.FilterImageFiles` | src/main.ts:123-128 | the kept files are exactly the files whose lower-cased extension is one of the six image extensions, and never more files than given |
| `Plugin.FilterConcat` | src/main.ts:125-128 | the filter distributes over concatenation, so the files keep their vault order |
| `Plugin.FilterIdempotent` | src/main.ts:125-128 | filtering the filtered list changes nothing |
| `Plugin.FilteredFileHasKnownType` | src/main.ts:123-128 | a file that passes the filter has a table entry, so the batch never gives it the default MIME type |
| `Plugin.FirstImageFile` | src/main.ts:45-54 | a file is found exactly when some item is a pasted image (kind `file`, an `image/` type, a non-null `getAsFile()`), and the file found is such an item's file |
| `Plugin.FirstImageFileIsFirst` | src/main.ts:45-54 | the chosen file belongs to an item with kind `file`, a type starting with `image/` and a non-null `getAsFile()`, and no earlier item qualifies. Nothing is chosen only when no item qualifies |
| `Plugin.ScanClipboard` | src/main.ts:43-54 | the indexed loop with `break` returns the first qualifying item's file, or null exactly when none qualifies |
| `Plugin.SavePastedImage` | src/main.ts:61-118 | a rejected resize or a failed save gives the failure notice with its message. Otherwise the resized blob's bytes are written with the extension of the original file's MIME type, and a link is inserted exactly when the file is found. The size notice appears exactly when the written blob is smaller than the pasted file |
| `Plugin.FittingPasteKeepsBytes` | src/main.ts:66-111 | a pasted image within the bounds is written byte for byte and no size reduction is reported |
| `Plugin.LargePasteSavesResampledBlob` | src/main.ts:66-87 | an oversized paste writes the encoder's output for the target size and output type; a null blob aborts the paste with "Failed to resize image: Failed to create blob from canvas" |
| `Plugin.HandlePaste` | src/main.ts:30-62 | the default paste goes ahead exactly when the event was already handled, there are no items, or no item is an image file; otherwise the first image file is saved as above |
| `Batch.ProcessFile` | src/main.ts:150-186 | an unreadable file, a rejected resize and a failed write are errors. After a successful resize the data is the original bytes when unchanged and the encoder's blob otherwise; the file is skipped exactly when the size test says the saving is too small, and otherwise that data is written back at the file's own path, saving the size difference. A written file is more than 5% smaller than the original, so its saving is positive |
| `Batch.SkipDecidedBySize` | src/main.ts:158-171 | the identity test `resizedBlob === blob` never holds, because `resizeImage` returns the `File` wrapper or a new blob. After a successful read and resize, the size test alone decides the skip |
| `Batch.SavingsTooSmall` | src/main.ts:169 | the integer test `100 * resized >= 95 * original` holds exactly when `resizedBlob.size >= originalSize * 0.95` in exact arithmetic |
| `Batch.FittingImageSkipped` | src/main.ts:158-171 | an image that already fits is skipped by the size test and never rewritten |
| `Batch.Count` | src/main.ts:171-185 | one iteration adds one to exactly the sum of resized, skipped and errors; `processed` grows with resized plus skipped; `resized` never goes down; and a written file adds at least one byte of saving per resized file |
| `Batch.Tally` | src/main.ts:142-187 | after the loop over a list of outcomes, resized, skipped and errors add up to the number of files |
| `Batch.TallyAccounts` | src/main.ts:142-186 | errors, skipped and resized are the numbers of failed, skipped and written files, counted independently; they add up to the number of files; processed equals resized plus skipped; the total saving is the sum of the written files' savings, so at least one byte per resized file |
| `Batch.SavingsGrow` | src/main.ts:177-178 | the resized count and the running total saving never decrease as the loop advances, and the saving rises by at least one byte for each file resized in between |
| `Batch.ProcessAllImages` | src/main.ts:141-187 | the loop's counters are the tally of the per-file outcomes in order: resized + skipped + errors is the number of image files, processed is resized + skipped, and the total saving is at least the resized count |
| `Batch.ResizeAllImages` | src/main.ts:121-139 | the "no images" notice appears exactly when no file passes the filter. A cancelled confirmation processes nothing and announces the filtered count. A confirmed run processes exactly the filtered files |
| `Batch.HundredthsOfMegabyte` | src/main.ts:192 | `toFixed(2)` of `bytes / 1024 / 1024` picks the hundredth nearest to the exact quotient, ties going up |
| `Batch.MegabytesText` | src/main.ts:192 | the text is the whole megabytes in decimal without leading zeros, a point and two digits, which read back to the chosen hundredth |
| `Batch.SummaryLines` | src/main.ts:193-199 | the header comes first, then the lines `Resized:`, `Skipped:`, `Errors:` and `Space saved:` in that order; each count line is the counter's decimal text (no leading zeros) and reads back to the counter, and the last line is the megabyte text followed by `MB` |
| `Text.DecimalRoundTrip` | src/main.ts:195-197 | the decimal text of a count reads back as the count |

## Left out

- Floating point: the ratio and the scaled extents are computed exactly. In
  JavaScript, `height * (maxWidth / width)` can land just below an exact `.5`
  and then round down where the model rounds up. Likewise `originalSize * 0.95`
  is compared exactly as `100 * size >= 95 * originalSize`.
- ScaleFactor, TargetSize and ResizeImage require positive bounds: both callers
  pass 1920 and 1080, and a zero bound over a zero extent would be NaN in
  JavaScript.
- Pixel work: decoding, `drawImage`, the smoothing settings and encoding are
  the uninterpreted functions of `Canvas`. In particular, the model does not
  capture which types the browser can encode. For `image/gif` or `image/bmp`,
  for example, a browser may produce PNG bytes, which would then be saved
  under the original extension.
- Exceptions thrown inside the load callback other than the three modelled
  rejections (a throwing `drawImage`, say) are not modelled.
- The Promise and callback plumbing and `URL.createObjectURL`/`revokeObjectURL`
  are collapsed into one result per call.
- The plugin lifecycle (`onload`, `registerEvent`, `addCommand`, `onunload`) is
  not modelled.
- The confirmation modal is reduced to the user's answer (`confirmed`).
- The progress notice and `notice.hide()` are assumed not to throw, so the
  counts assume no failure after `processed++`.
- Vault I/O is reduced to the outcomes of `Vault` and `PasteHost`. The
  timestamped file name (`Date.now()`), the attachment path, the markdown link
  text and `editor.replaceSelection` are not modelled; only the extension, the
  written bytes and whether a link is inserted are kept.
- The text of the paste size notice is not modelled, only whether it appears.
  Its percentage is computed in floating point.
- `toLowerCase` is ASCII lower-casing. No non-ASCII character lower-cases into
  one of the lookup keys, so no lookup result changes.
- Inherited keys of the JavaScript record literals (`constructor`, `toString`,
  ...) are not modelled: such a string maps to the default like any other
  unknown key. The batch only looks up extensions that passed the filter.
- The type of the `File` that `getAsFile()` returns is not tied to the
  item's `type`: a `ClipboardItem` carries its file, with its own MIME type,
  as given. The scan checks the item's type, and `resizeImage` and the saved
  extension use the file's type.
- Vault reads come from one fixed `read` function, so a write to one file
  never changes what a later read of another file returns. This relies on
  the vault's image files having distinct paths; the model does not capture
  a path that the loop visits twice.
- `src/types.ts` is not part of this model: it declares interfaces only.
