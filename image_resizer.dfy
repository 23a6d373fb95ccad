/**
 * The resize engine of src/imageResizer.ts: the scale-factor and target-size
 * arithmetic of `resizeImage`, its early "unchanged" return, its three failure
 * paths, the choice of output MIME type, and `getExtensionForMimeType`.
 *
 * Browser work (decoding into an `Image`, `getContext('2d')`, `drawImage`,
 * `canvas.toBlob`) is reached only through the uninterpreted functions of a
 * `Canvas` value, so the model fixes what the code decides and leaves the
 * pixels to the platform.
 */
module ImageResizer {
  import opened Wrappers
  import opened Text

  type Bytes = seq<bv8>

  /** Pixel extent of a decoded image (`img.width`, `img.height`). */
  datatype Dimensions = Dimensions(width: nat, height: nat)

  /** A `File` or `Blob`: encoded bytes and the declared MIME type (`file.type`). */
  datatype ImageFile = ImageFile(data: Bytes, mimeType: string)

  /**
   * The browser facilities `resizeImage` relies on.
   *  - decode: loading the bytes into an `Image`; None is the `onerror` path.
   *  - context: whether `getContext('2d')` returns a context for a canvas of that size.
   *  - encode: `canvas.toBlob(callback, type, quality)` after drawing the
   *    decoded image at the given size; None is a `null` blob.
   */
  datatype Canvas = Canvas(
    decode: Bytes -> Option<Dimensions>,
    context: Dimensions -> bool,
    encode: (Bytes, Dimensions, string, real) -> Option<Bytes>)

  /** The three ways `resizeImage` rejects. */
  datatype ResizeError = LoadFailed | NoContext | EncodeFailed

  /** The `message` of the `Error` each rejection carries. */
  function Message(e: ResizeError): (message: string)
    ensures StartsWith(message, "Failed to ")
  {
    match e
    case LoadFailed => "Failed to load image"
    case NoContext => "Failed to get canvas context"
    case EncodeFailed => "Failed to create blob from canvas"
  }

  /**
   * What `resizeImage` resolves with: the input file itself (`Unchanged`), or
   * the blob `toBlob` produced, with the canvas size and the requested type.
   */
  datatype ResizeResult =
    | Unchanged
    | Resampled(data: Bytes, size: Dimensions, mimeType: string)

  function Min(a: real, b: real): real
  {
    if a <= b then a else b
  }

  /** The image already lies within the bounds (an image exactly at the bounds included). */
  predicate FitsWithin(d: Dimensions, maxWidth: nat, maxHeight: nat)
  {
    d.width <= maxWidth && d.height <= maxHeight
  }

  /**
   * `Math.min(maxWidth / img.width, maxHeight / img.height, 1)`, in exact
   * arithmetic. A zero extent makes its quotient +Infinity, which never wins
   * the minimum. The result is the least of the candidates that exist.
   */
  function ScaleFactor(d: Dimensions, maxWidth: nat, maxHeight: nat): (ratio: real)
    requires maxWidth > 0 && maxHeight > 0
    ensures 0.0 < ratio <= 1.0
    ensures d.width > 0 ==> ratio <= maxWidth as real / d.width as real
    ensures d.height > 0 ==> ratio <= maxHeight as real / d.height as real
    ensures || ratio == 1.0
            || (d.width > 0 && ratio == maxWidth as real / d.width as real)
            || (d.height > 0 && ratio == maxHeight as real / d.height as real)
  {
    if d.width == 0 && d.height == 0 then 1.0
    else if d.width == 0 then Min(maxHeight as real / d.height as real, 1.0)
    else if d.height == 0 then Min(maxWidth as real / d.width as real, 1.0)
    else Min(Min(maxWidth as real / d.width as real, maxHeight as real / d.height as real), 1.0)
  }

  /** `Math.round`: the nearest integer, halves rounded up. */
  function Round(x: real): int
  {
    (x + 0.5).Floor
  }

  /** `Math.round(extent * ratio)` for a ratio in (0, 1]: never more than the extent. */
  function ScaledExtent(extent: nat, ratio: real): (n: nat)
    requires 0.0 < ratio <= 1.0
    ensures n <= extent
    ensures n as real - 0.5 <= extent as real * ratio < n as real + 0.5
  {
    RoundBounds(extent as real * ratio);
    RoundMonotone(extent as real * ratio, extent as real);
    RoundOfInteger(extent);
    Round(extent as real * ratio)
  }

  /** `newWidth` and `newHeight` of `resizeImage`. */
  function TargetSize(d: Dimensions, maxWidth: nat, maxHeight: nat): (size: Dimensions)
    requires maxWidth > 0 && maxHeight > 0
    ensures size.width <= d.width && size.height <= d.height
    ensures FitsWithin(d, maxWidth, maxHeight) ==> size == d
  {
    var ratio := ScaleFactor(d, maxWidth, maxHeight);
    UnchangedIffFits(d, maxWidth, maxHeight);
    Dimensions(ScaledExtent(d.width, ratio), ScaledExtent(d.height, ratio))
  }

  /** The output type: the input's own type when it is an image type, PNG otherwise. */
  function OutputType(mimeType: string): (outputType: string)
    ensures StartsWith(outputType, "image/")
    ensures outputType == mimeType <==> StartsWith(mimeType, "image/")
    ensures !StartsWith(mimeType, "image/") ==> outputType == "image/png"
  {
    if StartsWith(mimeType, "image/") then mimeType else "image/png"
  }

  /**
   * `resizeImage(file, maxWidth, maxHeight, quality)`. The callback order of
   * the source is kept: a load failure first; then the "unchanged" return,
   * which needs no canvas; then a missing 2D context; then a null blob.
   */
  function ResizeImage(file: ImageFile, maxWidth: nat, maxHeight: nat, quality: real, canvas: Canvas)
    : (r: Result<ResizeResult, ResizeError>)
    requires maxWidth > 0 && maxHeight > 0
    ensures r == Failure(LoadFailed) <==> canvas.decode(file.data).None?
    ensures r == Success(Unchanged) <==>
      canvas.decode(file.data).Some? && FitsWithin(canvas.decode(file.data).value, maxWidth, maxHeight)
    ensures r == Failure(NoContext) <==>
      && canvas.decode(file.data).Some?
      && !FitsWithin(canvas.decode(file.data).value, maxWidth, maxHeight)
      && !canvas.context(TargetSize(canvas.decode(file.data).value, maxWidth, maxHeight))
    ensures r.Success? && r.value.Resampled? ==>
      var d := canvas.decode(file.data).value;
      && !FitsWithin(d, maxWidth, maxHeight)
      && r.value.size == TargetSize(d, maxWidth, maxHeight)
      && FitsWithin(r.value.size, maxWidth, maxHeight)
      && r.value.size.width <= d.width && r.value.size.height <= d.height
      && r.value.mimeType == OutputType(file.mimeType)
      && canvas.encode(file.data, r.value.size, r.value.mimeType, quality) == Some(r.value.data)
    ensures r == Failure(EncodeFailed) ==>
      var d := canvas.decode(file.data).value;
      && canvas.decode(file.data).Some?
      && !FitsWithin(d, maxWidth, maxHeight)
      && canvas.encode(file.data, TargetSize(d, maxWidth, maxHeight), OutputType(file.mimeType), quality).None?
  {
    match canvas.decode(file.data)
    case None => Failure(LoadFailed)
    case Some(d) =>
      var ratio := ScaleFactor(d, maxWidth, maxHeight);
      var size := TargetSize(d, maxWidth, maxHeight);
      UnchangedIffFits(d, maxWidth, maxHeight);
      if ratio == 1.0 then Success(Unchanged)
      else if !canvas.context(size) then Failure(NoContext)
      else
        var outputType := OutputType(file.mimeType);
        match canvas.encode(file.data, size, outputType, quality)
        case None => Failure(EncodeFailed)
        case Some(blob) =>
          TargetSizeFits(d, maxWidth, maxHeight);
          Success(Resampled(blob, size, outputType))
  }

  /** The bytes and type of the blob `resizeImage` resolves with. */
  function ResultBlob(file: ImageFile, r: ResizeResult): ImageFile
  {
    match r
    case Unchanged => file
    case Resampled(data, _, mimeType) => ImageFile(data, mimeType)
  }

  /** The MIME type to file extension table of `getExtensionForMimeType`. */
  const ExtensionTable: map<string, string> := map[
    "image/png" := "png",
    "image/jpeg" := "jpg",
    "image/jpg" := "jpg",
    "image/webp" := "webp",
    "image/gif" := "gif",
    "image/svg+xml" := "svg",
    "image/bmp" := "bmp"
  ]

  /** `getExtensionForMimeType`: total, with `png` for every type not in the table. */
  function ExtensionForMimeType(mimeType: string): (ext: string)
    ensures ext in {"png", "jpg", "webp", "gif", "svg", "bmp"}
    ensures mimeType !in ExtensionTable ==> ext == "png"
  {
    if mimeType in ExtensionTable then ExtensionTable[mimeType] else "png"
  }

  // ---------------------------------------------------------------------------
  // Rounding facts

  lemma RoundBounds(x: real)
    ensures Round(x) as real - 0.5 <= x < Round(x) as real + 0.5
  {
  }

  lemma RoundMonotone(x: real, y: real)
    requires x <= y
    ensures Round(x) <= Round(y)
  {
  }

  lemma RoundOfInteger(n: int)
    ensures Round(n as real) == n
  {
  }

  /** The floor of an exact quotient is integer division. */
  lemma FloorOfQuotient(a: int, b: int)
    requires a >= 0 && b > 0
    ensures (a as real / b as real).Floor == a / b
  {
    var q, m := a / b, a % b;
    assert a == q * b + m && 0 <= m < b;
    assert a as real / b as real == q as real + m as real / b as real;
    assert 0.0 <= m as real / b as real < 1.0;
  }

  // ---------------------------------------------------------------------------
  // Properties of the resize arithmetic

  /** The "unchanged" return fires exactly when the image fits within the bounds. */
  lemma UnchangedIffFits(d: Dimensions, maxWidth: nat, maxHeight: nat)
    requires maxWidth > 0 && maxHeight > 0
    ensures ScaleFactor(d, maxWidth, maxHeight) == 1.0 <==> FitsWithin(d, maxWidth, maxHeight)
  {
    var ratio := ScaleFactor(d, maxWidth, maxHeight);
    if d.width > 0 {
      QuotientAtLeastOne(maxWidth, d.width);
    }
    if d.height > 0 {
      QuotientAtLeastOne(maxHeight, d.height);
    }
  }

  lemma QuotientAtLeastOne(bound: nat, extent: nat)
    requires extent > 0
    ensures bound as real / extent as real >= 1.0 <==> extent <= bound
  {
    var q := bound as real / extent as real;
    assert q * extent as real == bound as real;
  }

  /** A fitting image keeps its size: nothing is ever upscaled. */
  lemma FittingSizeKept(d: Dimensions, maxWidth: nat, maxHeight: nat)
    requires maxWidth > 0 && maxHeight > 0
    requires FitsWithin(d, maxWidth, maxHeight)
    ensures TargetSize(d, maxWidth, maxHeight) == d
  {
    UnchangedIffFits(d, maxWidth, maxHeight);
    RoundOfInteger(d.width);
    RoundOfInteger(d.height);
  }

  /** `extent * ratio` stays within the bound when the ratio is at most `bound / extent`. */
  lemma ScaledWithinBound(extent: nat, bound: nat, ratio: real)
    requires extent > 0 && 0.0 < ratio <= bound as real / extent as real
    ensures extent as real * ratio <= bound as real
  {
    var q := bound as real / extent as real;
    assert extent as real * q == bound as real;
    assert extent as real * ratio <= extent as real * q;
  }

  /** One axis of the target size stays within its bound when the ratio respects it. */
  lemma AxisWithinBound(extent: nat, bound: nat, ratio: real)
    requires 0.0 < ratio <= 1.0
    requires extent > 0 ==> ratio <= bound as real / extent as real
    ensures ScaledExtent(extent, ratio) <= bound
  {
    RoundOfInteger(bound);
    if extent > 0 {
      ScaledWithinBound(extent, bound, ratio);
      RoundMonotone(extent as real * ratio, bound as real);
    }
  }

  /** A resized image fits within the bounds and is no larger than the original on either axis. */
  lemma TargetSizeFits(d: Dimensions, maxWidth: nat, maxHeight: nat)
    requires maxWidth > 0 && maxHeight > 0
    ensures FitsWithin(TargetSize(d, maxWidth, maxHeight), maxWidth, maxHeight)
    ensures TargetSize(d, maxWidth, maxHeight).width <= d.width
    ensures TargetSize(d, maxWidth, maxHeight).height <= d.height
  {
    var ratio := ScaleFactor(d, maxWidth, maxHeight);
    AxisWithinBound(d.width, maxWidth, ratio);
    AxisWithinBound(d.height, maxHeight, ratio);
  }

  /** Cross-multiplied comparison of two quotients of naturals. */
  lemma QuotientsCompare(a: nat, b: nat, c: nat, e: nat)
    requires b > 0 && e > 0 && a * e <= c * b
    ensures a as real / b as real <= c as real / e as real
  {
    var x, y := a as real / b as real, c as real / e as real;
    assert x * b as real == a as real && y * e as real == c as real;
    assert (a * e) as real == a as real * e as real;
    assert (c * b) as real == c as real * b as real;
    assert x * (b as real * e as real) <= y * (b as real * e as real);
  }

  /** `n * (bound / extent) + 1/2` as one exact quotient of integers. */
  lemma HalfUpQuotient(n: nat, bound: nat, extent: nat)
    requires extent > 0
    ensures n as real * (bound as real / extent as real) + 0.5
            == (2 * n * bound + extent) as real / (2 * extent) as real
  {
    var q := bound as real / extent as real;
    assert q * extent as real == bound as real;
    assert (2 * n * bound + extent) as real == 2.0 * n as real * bound as real + extent as real;
    var lhs := n as real * q + 0.5;
    var rhs := (2 * n * bound + extent) as real / (2 * extent) as real;
    assert lhs * (2 * extent) as real == (2 * n * bound + extent) as real;
    assert rhs * (2 * extent) as real == (2 * n * bound + extent) as real;
    assert (lhs - rhs) * (2 * extent) as real == 0.0;
    assert (2 * extent) as real > 0.0;
    assert lhs == rhs;
  }

  /**
   * When the width is the binding axis (`maxWidth / width <= maxHeight / height`,
   * cross-multiplied), the new width is exactly `maxWidth` and the new height is
   * the round-half-up of `height * maxWidth / width`, in integer arithmetic.
   */
  lemma WidthBinds(d: Dimensions, maxWidth: nat, maxHeight: nat)
    requires maxWidth > 0 && maxHeight > 0
    requires !FitsWithin(d, maxWidth, maxHeight)
    requires maxWidth * d.height <= maxHeight * d.width
    ensures d.width > maxWidth
    ensures TargetSize(d, maxWidth, maxHeight).width == maxWidth
    ensures TargetSize(d, maxWidth, maxHeight).height
            == (2 * d.height * maxWidth + d.width) / (2 * d.width)
  {
    var w, h := d.width, d.height;
    assert w > 0;
    var q := maxWidth as real / w as real;
    assert q < 1.0 by { QuotientAtLeastOne(maxWidth, w); }
    if h > 0 {
      QuotientsCompare(maxWidth, w, maxHeight, h);
    }
    assert ScaleFactor(d, maxWidth, maxHeight) == q;
    assert w as real * q == maxWidth as real;
    RoundOfInteger(maxWidth);
    var num := 2 * h * maxWidth + w;
    HalfUpQuotient(h, maxWidth, w);
    FloorOfQuotient(num, 2 * w);
  }

  /** The height-bound counterpart of WidthBinds. */
  lemma HeightBinds(d: Dimensions, maxWidth: nat, maxHeight: nat)
    requires maxWidth > 0 && maxHeight > 0
    requires !FitsWithin(d, maxWidth, maxHeight)
    requires maxHeight * d.width <= maxWidth * d.height
    ensures d.height > maxHeight
    ensures TargetSize(d, maxWidth, maxHeight).height == maxHeight
    ensures TargetSize(d, maxWidth, maxHeight).width
            == (2 * d.width * maxHeight + d.height) / (2 * d.height)
  {
    var w, h := d.width, d.height;
    assert h > 0;
    var p := maxHeight as real / h as real;
    assert p < 1.0 by { QuotientAtLeastOne(maxHeight, h); }
    if w > 0 {
      QuotientsCompare(maxHeight, h, maxWidth, w);
    }
    assert ScaleFactor(d, maxWidth, maxHeight) == p;
    assert h as real * p == maxHeight as real;
    RoundOfInteger(maxHeight);
    var num := 2 * w * maxHeight + h;
    HalfUpQuotient(w, maxHeight, h);
    FloorOfQuotient(num, 2 * h);
  }

  /** A resized image lands exactly on at least one of its bounds. */
  lemma BindingAxisOnBound(d: Dimensions, maxWidth: nat, maxHeight: nat)
    requires maxWidth > 0 && maxHeight > 0
    requires !FitsWithin(d, maxWidth, maxHeight)
    ensures TargetSize(d, maxWidth, maxHeight).width == maxWidth
         || TargetSize(d, maxWidth, maxHeight).height == maxHeight
  {
    if maxWidth * d.height <= maxHeight * d.width {
      WidthBinds(d, maxWidth, maxHeight);
    } else {
      HeightBinds(d, maxWidth, maxHeight);
    }
  }

  /**
   * The aspect ratio survives up to rounding: cross-multiplied, the new size
   * differs from the original proportion by at most half of the original's
   * longer side (half of the binding side, in fact).
   */
  lemma AspectRatioKept(d: Dimensions, maxWidth: nat, maxHeight: nat)
    requires maxWidth > 0 && maxHeight > 0
    requires !FitsWithin(d, maxWidth, maxHeight)
    ensures var skew := Skew(d, TargetSize(d, maxWidth, maxHeight));
      var longer: int := if d.width >= d.height then d.width else d.height;
      -longer <= 2 * skew <= longer
    ensures var bindingSide := if maxWidth * d.height <= maxHeight * d.width then d.width else d.height;
      -bindingSide <= 2 * Skew(d, TargetSize(d, maxWidth, maxHeight)) <= bindingSide
  {
    var w, h := d.width, d.height;
    var t := TargetSize(d, maxWidth, maxHeight);
    if maxWidth * h <= maxHeight * w {
      WidthBinds(d, maxWidth, maxHeight);
      RoundedQuotientSkew(w, h, maxWidth, t.height);
      assert Skew(d, t) == maxWidth * h - t.height * w;
      assert -w <= 2 * Skew(d, t) <= w;
    } else {
      HeightBinds(d, maxWidth, maxHeight);
      RoundedQuotientSkew(h, w, maxHeight, t.width);
      assert Skew(d, t) == -(maxHeight * w - t.width * h);
      assert -h <= 2 * Skew(d, t) <= h;
    }
  }

  /** How far `t` departs from the proportion of `d`, cross-multiplied. */
  function Skew(d: Dimensions, t: Dimensions): int
  {
    t.width * d.height - t.height * d.width
  }

  /** The rounded quotient `q` of `h * m / w` misses it by at most half of `w`, cross-multiplied. */
  lemma RoundedQuotientSkew(w: int, h: int, m: int, q: int)
    requires w > 0
    requires q == (2 * h * m + w) / (2 * w)
    ensures -w <= 2 * (m * h - q * w) <= w
  {
    var num := 2 * h * m + w;
    DivisionBounds(num, 2 * w);
    assert q * (2 * w) <= num < q * (2 * w) + 2 * w;
    assert 2 * (m * h - q * w) == num - q * (2 * w) - w;
  }

  lemma DivisionBounds(a: int, b: int)
    requires b > 0
    ensures (a / b) * b <= a < (a / b) * b + b
  {
  }

  /** Resizing is idempotent: a resized size is left unchanged by a second pass. */
  lemma ResizeIdempotent(d: Dimensions, maxWidth: nat, maxHeight: nat)
    requires maxWidth > 0 && maxHeight > 0
    ensures ScaleFactor(TargetSize(d, maxWidth, maxHeight), maxWidth, maxHeight) == 1.0
    ensures TargetSize(TargetSize(d, maxWidth, maxHeight), maxWidth, maxHeight)
            == TargetSize(d, maxWidth, maxHeight)
  {
    var t := TargetSize(d, maxWidth, maxHeight);
    TargetSizeFits(d, maxWidth, maxHeight);
    UnchangedIffFits(t, maxWidth, maxHeight);
    FittingSizeKept(t, maxWidth, maxHeight);
  }

  /** A 3840x2160 image under the 1920x1080 policy is halved to exactly 1920x1080. */
  lemma HalvedUltraHd()
    ensures ScaleFactor(Dimensions(3840, 2160), 1920, 1080) == 0.5
    ensures TargetSize(Dimensions(3840, 2160), 1920, 1080) == Dimensions(1920, 1080)
  {
    WidthBinds(Dimensions(3840, 2160), 1920, 1080);
  }

  /**
   * The code does not clamp the new size to at least one pixel: a 100000x1
   * strip scales to a height of 0.
   */
  lemma StripScalesToZeroHeight()
    ensures TargetSize(Dimensions(100000, 1), 1920, 1080) == Dimensions(1920, 0)
  {
    WidthBinds(Dimensions(100000, 1), 1920, 1080);
  }

  /** A resized JPEG is re-encoded as JPEG; an unknown non-image type falls back to PNG. */
  lemma OutputTypeExamples()
    ensures OutputType("image/jpeg") == "image/jpeg"
    ensures OutputType("image/tiff") == "image/tiff"
    ensures OutputType("application/octet-stream") == "image/png"
    ensures OutputType("") == "image/png"
  {
    assert StartsWith("image/jpeg", "image/");
    assert StartsWith("image/tiff", "image/");
    assert !StartsWith("application/octet-stream", "image/") by {
      assert "application/octet-stream"[..6][0] == 'a';
    }
  }

  /** The exact table of `getExtensionForMimeType`, and its default. */
  lemma ExtensionTableEntries(mimeType: string)
    ensures ExtensionForMimeType("image/png") == "png"
    ensures ExtensionForMimeType("image/jpeg") == "jpg"
    ensures ExtensionForMimeType("image/jpg") == "jpg"
    ensures ExtensionForMimeType("image/webp") == "webp"
    ensures ExtensionForMimeType("image/gif") == "gif"
    ensures ExtensionForMimeType("image/svg+xml") == "svg"
    ensures ExtensionForMimeType("image/bmp") == "bmp"
    ensures mimeType !in {"image/png", "image/jpeg", "image/jpg", "image/webp",
                          "image/gif", "image/svg+xml", "image/bmp"}
            ==> ExtensionForMimeType(mimeType) == "png"
  {
  }
}
