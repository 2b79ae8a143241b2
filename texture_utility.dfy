/** The engine-independent parts of `TextureUtility` (TextureUtility.cs): the
    argument validators, the early exits of `Resize`, the conversion of a
    texture's pixels to a flat array of channel values, and the crop
    parameters handed to the crop shader. Pixel channels are bytes; the
    `float` arithmetic is exact real arithmetic here. */
module TextureUtility {
  import opened Wrappers
  import opened Text
  import DebugLog

  /** A byte, the type of a `Color32` channel. */
  newtype byte = x: int | 0 <= x < 256

  /** `Color32`. */
  datatype Color32 = Color32(r: byte, g: byte, b: byte, a: byte)

  /** A readable `Texture2D`: its name, size and `GetPixels32()`. */
  datatype Texture = Texture(name: string, width: int, height: int, pixels: seq<Color32>)

  /** `ConversionType`; `Other` is any value outside the declared ones. */
  datatype ConversionType = RGB | Grayscale | Other(code: int)

  /** The exceptions the validators and the conversion throw. */
  datatype Failure =
    | ArgumentNull(paramName: string, message: string)
    | Argument(paramName: string, message: string)
    | NotSupported(message: string)

  /** The value `ValidateData` receives: `null`, a string, a byte array or
      any other object. */
  datatype Data = NullData | StringData(s: string) | BytesData(bytes: seq<byte>) | OtherData

  // ---------------------------------------------------------------------------
  // Validation

  /** `ValidateInput(input)`: throws for `null` only. */
  function ValidateInput<T>(input: Option<T>): (r: Option<Failure>)
    ensures r.Some? <==> input.None?
    ensures r.Some? ==> r.value == ArgumentNull("input", "Input cannot be null.")
  {
    if input.None? then Some(ArgumentNull("input", "Input cannot be null.")) else None
  }

  /** `ValidateDimensions(width, height)`: the width is checked first. */
  function ValidateDimensions(width: int, height: int): (r: Option<Failure>)
    ensures r.None? <==> width > 0 && height > 0
    ensures width <= 0 ==> r == Some(Argument("width", "Width must be greater than zero."))
    ensures width > 0 && height <= 0 ==> r == Some(Argument("height", "Height must be greater than zero."))
  {
    if width <= 0 then Some(Argument("width", "Width must be greater than zero."))
    else if height <= 0 then Some(Argument("height", "Height must be greater than zero."))
    else None
  }

  /** `ValidateData(data, paramName)`. */
  function ValidateData(data: Data, paramName: string): (r: Option<Failure>)
    ensures r.Some? ==> r.value == Argument(paramName, paramName + " cannot be null, empty, or whitespace.")
  {
    var bad := match data
      case NullData => true
      case StringData(s) => IsBlank(s)
      case BytesData(bytes) => |bytes| == 0
      case OtherData => false;
    if bad then Some(Argument(paramName, paramName + " cannot be null, empty, or whitespace.")) else None
  }

  /** `ValidateData` rejects exactly `null`, a blank string and an empty byte
      array. */
  lemma ValidateDataRejects(data: Data, paramName: string)
    ensures ValidateData(data, paramName).Some? <==>
      data.NullData? || (data.StringData? && IsNullOrWhiteSpace(Some(data.s))) || (data.BytesData? && data.bytes == [])
  {
  }

  /** `ValidateName(fileName)`. */
  function ValidateName(fileName: Option<string>): (r: Option<Failure>)
    ensures r.Some? <==> IsNullOrWhiteSpace(fileName)
  {
    if IsNullOrWhiteSpace(fileName)
    then Some(Argument("fileName", "File name must not be null or whitespace."))
    else None
  }

  // ---------------------------------------------------------------------------
  // Resize

  /** The path `Resize` takes before any GPU work. */
  datatype ResizePath = Rejected(failure: Failure) | Unchanged | Scaled

  /** The checks at the head of `Resize`: the source, then the target size,
      then whether the size already matches. */
  function ResizeStart(source: Option<Texture>, targetWidth: int, targetHeight: int): (p: ResizePath)
    ensures p.Rejected? <==> source.None? || targetWidth <= 0 || targetHeight <= 0
    ensures p.Unchanged? <==> (source.Some? && targetWidth > 0 && targetHeight > 0
      && source.value.width == targetWidth && source.value.height == targetHeight)
  {
    if source.None? then Rejected(ValidateInput(source).value)
    else if ValidateDimensions(targetWidth, targetHeight).Some?
    then Rejected(ValidateDimensions(targetWidth, targetHeight).value)
    else if source.value.width == targetWidth && source.value.height == targetHeight then Unchanged
    else Scaled
  }

  /** `Environment.NewLine` on the editor's platform. */
  const NewLine: string := "\n"

  /** The `Message` of a thrown exception as the Mono runtime builds it: an
      argument exception with a parameter name appends it on a line of its
      own. */
  function FailureMessage(f: Failure): string {
    match f
    case ArgumentNull(p, m) => WithParamName(m, p)
    case Argument(p, m) => WithParamName(m, p)
    case NotSupported(m) => m
  }

  function WithParamName(m: string, p: string): string {
    if p == "" then m else m + NewLine + "Parameter name: " + p
  }

  /** The message of an argument exception keeps its own text in front and
      ends with the parameter's name. */
  lemma ParamNameAtEnd(m: string, p: string)
    requires p != ""
    ensures var t := WithParamName(m, p);
      && t[..|m|] == m
      && t[|t| - |p|..] == p
      && t[|m|..|t| - |p|] == NewLine + "Parameter name: "
  {
  }

  /** The warning `Resize` logs when a check throws. */
  function ResizeWarning(f: Failure, stackTrace: string): string {
    "Error occurred during resizing!\n" + FailureMessage(f) + "\n" + stackTrace
  }

  /** `Resize` up to the GPU work: a rejected call logs a warning and returns
      `null` instead of throwing, a call whose size already matches returns
      the source itself, and any other call goes on to scale (`scaled`). */
  method Resize(source: Option<Texture>, targetWidth: int, targetHeight: int, stackTrace: string,
                console: DebugLog.Console)
    returns (result: Option<Texture>, scaled: bool)
    modifies console
    ensures scaled <==> ResizeStart(source, targetWidth, targetHeight).Scaled?
    ensures ResizeStart(source, targetWidth, targetHeight).Rejected? ==> result.None?
    ensures ResizeStart(source, targetWidth, targetHeight).Unchanged? ==> result == source
    ensures console.entries == old(console.entries) +
      match ResizeStart(source, targetWidth, targetHeight)
      case Rejected(f) => DebugLog.Output(console.isEditor, DebugLog.WarningCall(Some(ResizeWarning(f, stackTrace))))
      case _ => []
    ensures console.subscribed == old(console.subscribed)
    ensures console.raised == old(console.raised) +
      match ResizeStart(source, targetWidth, targetHeight)
      case Rejected(f) => DebugLog.Notified(console.isEditor, console.subscribed, DebugLog.WarningCall(Some(ResizeWarning(f, stackTrace))))
      case _ => []
  {
    var path := ResizeStart(source, targetWidth, targetHeight);
    match path {
      case Rejected(f) =>
        console.Warning(Some(ResizeWarning(f, stackTrace)));
        result, scaled := None, false;
      case Unchanged =>
        result, scaled := source, false;
      case Scaled =>
        result, scaled := None, true;
    }
  }

  /** The warning of a rejected `Resize` is never blank, so it is printed in
      the editor. */
  lemma ResizeWarningPrinted(f: Failure, stackTrace: string)
    ensures DebugLog.Output(true, DebugLog.WarningCall(Some(ResizeWarning(f, stackTrace)))) != []
  {
    assert !IsWhiteSpace(ResizeWarning(f, stackTrace)[0]);
  }

  // ---------------------------------------------------------------------------
  // Extracting

  /** `1.0f / 255.0f`. */
  const Scale: real := 1.0 / 255.0

  /** A channel of a pixel: 0 for red, 1 for green, 2 for blue. */
  function Channel(p: Color32, c: int): real
    requires 0 <= c < 3
  {
    if c == 0 then p.r as real * Scale else if c == 1 then p.g as real * Scale else p.b as real * Scale
  }

  /** The RGB data of a run of pixels: each pixel's red, green and blue, one
      pixel after the other. */
  function RgbData(pixels: seq<Color32>): (d: seq<real>)
    ensures |d| == 3 * |pixels|
    decreases |pixels|
  {
    if pixels == [] then []
    else
      var p := pixels[|pixels| - 1];
      RgbData(pixels[..|pixels| - 1]) + [Channel(p, 0), Channel(p, 1), Channel(p, 2)]
  }

  /** Index `k` of the RGB data holds channel `k % 3` of pixel `k / 3`, so
      every index is filled exactly once. */
  lemma {:induction false} RgbDataLayout(pixels: seq<Color32>, k: int)
    requires 0 <= k < 3 * |pixels|
    ensures RgbData(pixels)[k] == Channel(pixels[k / 3], k % 3)
    decreases |pixels|
  {
    var n := |pixels| - 1;
    if k < 3 * n {
      RgbDataLayout(pixels[..n], k);
      assert pixels[..n][k / 3] == pixels[k / 3];
    } else {
      assert k / 3 == n;
    }
  }

  /** A sequence holding each pixel's channels at `3i`, `3i + 1` and
      `3i + 2` is the RGB data. */
  lemma LaidOutIsRgbData(pixels: seq<Color32>, d: seq<real>)
    requires |d| == 3 * |pixels|
    requires forall i | 0 <= i < |pixels| ::
      && d[3 * i] == pixels[i].r as real * Scale
      && d[3 * i + 1] == pixels[i].g as real * Scale
      && d[3 * i + 2] == pixels[i].b as real * Scale
    ensures d == RgbData(pixels)
  {
    forall k | 0 <= k < |d|
      ensures d[k] == RgbData(pixels)[k]
    {
      RgbDataLayout(pixels, k);
      var j, c := k / 3, k % 3;
      assert k == 3 * j + c && 0 <= j < |pixels|;
      if c == 0 {
        assert d[3 * j] == Channel(pixels[j], 0);
      } else if c == 1 {
        assert d[3 * j + 1] == Channel(pixels[j], 1);
      } else {
        assert d[3 * j + 2] == Channel(pixels[j], 2);
      }
    }
  }

  /** Every value of the RGB data lies in [0, 1]. */
  lemma RgbDataInRange(pixels: seq<Color32>)
    ensures forall k | 0 <= k < |RgbData(pixels)| :: 0.0 <= RgbData(pixels)[k] <= 1.0
  {
    forall k | 0 <= k < |RgbData(pixels)|
      ensures 0.0 <= RgbData(pixels)[k] <= 1.0
    {
      RgbDataLayout(pixels, k);
    }
  }

  /** The grayscale value of a pixel. */
  function Gray(p: Color32): (v: real)
    ensures 0.0 <= v <= 1.0
  {
    (0.299 * p.r as real + 0.587 * p.g as real + 0.114 * p.b as real) / 255.0
  }

  /** A gray pixel keeps its level: the three weights sum to one. */
  lemma GrayOfGray(p: Color32)
    requires p.r == p.g == p.b
    ensures Gray(p) == p.r as real * Scale
  {
  }

  /** `ExtractRGB`: a fresh array of three values per pixel. */
  method ExtractRgb(texture: Texture, console: DebugLog.Console) returns (rgb: array<real>)
    modifies console
    ensures fresh(rgb) && rgb.Length == 3 * |texture.pixels|
    ensures forall i | 0 <= i < |texture.pixels| ::
      && rgb[3 * i] == texture.pixels[i].r as real * Scale
      && rgb[3 * i + 1] == texture.pixels[i].g as real * Scale
      && rgb[3 * i + 2] == texture.pixels[i].b as real * Scale
    ensures rgb[..] == RgbData(texture.pixels)
    ensures console.subscribed == old(console.subscribed)
    ensures console.entries == old(console.entries) + DebugLog.Output(console.isEditor, Extracted(texture, RGB))
    ensures console.raised == old(console.raised) + DebugLog.Notified(console.isEditor, console.subscribed, Extracted(texture, RGB))
  {
    var pixels := texture.pixels;
    rgb := new real[|pixels| * 3];
    for i := 0 to |pixels|
      modifies rgb
      invariant forall j | 0 <= j < i ::
        && rgb[3 * j] == pixels[j].r as real * Scale
        && rgb[3 * j + 1] == pixels[j].g as real * Scale
        && rgb[3 * j + 2] == pixels[j].b as real * Scale
    {
      var pixel := pixels[i];
      rgb[i * 3] := pixel.r as real * Scale;
      rgb[i * 3 + 1] := pixel.g as real * Scale;
      rgb[i * 3 + 2] := pixel.b as real * Scale;
    }
    LaidOutIsRgbData(pixels, rgb[..]);
    console.Info(Some(ExtractedMessage(texture, RGB)));
  }

  /** `ExtractGrayscale`: a fresh array of one value per pixel. */
  method ExtractGrayscale(texture: Texture, console: DebugLog.Console) returns (grayscale: array<real>)
    modifies console
    ensures fresh(grayscale) && grayscale.Length == |texture.pixels|
    ensures forall i | 0 <= i < |texture.pixels| :: grayscale[i] == Gray(texture.pixels[i])
    ensures forall i | 0 <= i < grayscale.Length :: 0.0 <= grayscale[i] <= 1.0
    ensures console.subscribed == old(console.subscribed)
    ensures console.entries == old(console.entries) + DebugLog.Output(console.isEditor, Extracted(texture, Grayscale))
    ensures console.raised == old(console.raised) + DebugLog.Notified(console.isEditor, console.subscribed, Extracted(texture, Grayscale))
  {
    var pixels := texture.pixels;
    grayscale := new real[|pixels|];
    for i := 0 to |pixels|
      modifies grayscale
      invariant forall j | 0 <= j < i :: grayscale[j] == Gray(pixels[j])
    {
      var pixel := pixels[i];
      grayscale[i] := (0.299 * pixel.r as real + 0.587 * pixel.g as real + 0.114 * pixel.b as real) / 255.0;
    }
    console.Info(Some(ExtractedMessage(texture, Grayscale)));
  }

  /** The info line an extraction logs once its array is filled. */
  function Extracted(texture: Texture, t: ConversionType): DebugLog.Call {
    DebugLog.InfoCall(Some(ExtractedMessage(texture, t)))
  }

  function ExtractedMessage(texture: Texture, t: ConversionType): string {
    "Extracted " + (if t == Grayscale then "grayscale" else "RGB") + " data from " + texture.name + "."
  }

  /** The length `ExtractData` returns for a conversion it supports. */
  function DataLength(texture: Texture, t: ConversionType): int {
    if t == Grayscale then |texture.pixels| else 3 * |texture.pixels|
  }

  /** `ExtractData`: rejects a `null` texture, dispatches the two supported
      conversions and throws for any other. */
  method ExtractData(texture: Option<Texture>, t: ConversionType, console: DebugLog.Console)
    returns (r: Outcome<array<real>, Failure>)
    modifies console
    ensures texture.None? ==> r == Threw(ValidateInput(texture).value)
    ensures texture.Some? && t.Other? ==> r.Threw? && r.error.NotSupported?
    ensures texture.Some? && !t.Other? ==> r.Returned? && r.value.Length == DataLength(texture.value, t)
    ensures texture.Some? && t == RGB ==> r.Returned? && r.value[..] == RgbData(texture.value.pixels)
    ensures texture.Some? && t == Grayscale ==> (r.Returned? &&
      forall i | 0 <= i < r.value.Length :: r.value[i] == Gray(texture.value.pixels[i]))
    ensures console.subscribed == old(console.subscribed)
    ensures console.entries == old(console.entries)
      + if texture.None? || t.Other? then [] else DebugLog.Output(console.isEditor, Extracted(texture.value, t))
    ensures console.raised == old(console.raised)
      + if texture.None? || t.Other? then [] else DebugLog.Notified(console.isEditor, console.subscribed, Extracted(texture.value, t))
  {
    if texture.None? {
      return Threw(ValidateInput(texture).value);
    }
    match t {
      case Grayscale =>
        var a := ExtractGrayscale(texture.value, console);
        r := Returned(a);
      case RGB =>
        var a := ExtractRgb(texture.value, console);
        r := Returned(a);
      case Other(code) =>
        r := Threw(NotSupported("Unsupported conversion type: " + EnumText(code)));
    }
  }

  /** How an enum value outside the declared names is printed: its number. */
  function EnumText(code: int): string {
    if code < 0 then "-" + NatText(-code) else NatText(code)
  }

  function NatText(n: nat): string
    decreases n
  {
    if n < 10 then [DigitChar(n)] else NatText(n / 10) + [DigitChar(n % 10)]
  }

  function DigitChar(d: nat): char
    requires d < 10
  {
    "0123456789"[d]
  }

  // ---------------------------------------------------------------------------
  // Crop parameters

  /** `Mathf.Clamp(value, min, max)`. */
  function Clamp(value: real, min: real, max: real): (r: real)
    requires min <= max
    ensures min <= r <= max
    ensures min <= value <= max ==> r == value
  {
    if value < min then min else if value > max then max else value
  }

  /** `Rect`, by its edges. */
  datatype Rect = Rect(xMin: real, yMin: real, xMax: real, yMax: real)

  /** `Vector4`. */
  datatype Vector4 = Vector4(x: real, y: real, z: real, w: real)

  /** `CalculateCropParams`: the rectangle's edges as fractions of the
      source's size, clamped to [0, 1]. */
  function CropParams(width: int, height: int, crop: Rect): (v: Vector4)
    requires width > 0 && height > 0
    ensures 0.0 <= v.x <= 1.0 && 0.0 <= v.y <= 1.0 && 0.0 <= v.z <= 1.0 && 0.0 <= v.w <= 1.0
  {
    Vector4(
      Clamp(crop.xMin / width as real, 0.0, 1.0),
      Clamp(crop.yMin / height as real, 0.0, 1.0),
      Clamp(crop.xMax / width as real, 0.0, 1.0),
      Clamp(crop.yMax / height as real, 0.0, 1.0))
  }

  /** A rectangle inside the source gives its exact fractions. */
  lemma CropInsideIsExact(width: int, height: int, crop: Rect)
    requires width > 0 && height > 0
    requires 0.0 <= crop.xMin <= crop.xMax <= width as real
    requires 0.0 <= crop.yMin <= crop.yMax <= height as real
    ensures CropParams(width, height, crop)
         == Vector4(crop.xMin / width as real, crop.yMin / height as real,
                    crop.xMax / width as real, crop.yMax / height as real)
    ensures CropParams(width, height, crop).x <= CropParams(width, height, crop).z
  {
    Fraction(crop.xMin, crop.xMax, width as real);
    Fraction(crop.yMin, crop.yMax, height as real);
  }

  /** Dividing `0 <= a <= b <= size` by `size` keeps the order and lands in
      [0, 1]. */
  lemma Fraction(a: real, b: real, size: real)
    requires 0.0 < size && 0.0 <= a <= b <= size
    ensures 0.0 <= a / size <= b / size <= 1.0
  {
    var f := 1.0 / size;
    assert 0.0 < f;
    assert a / size == a * f && b / size == b * f && size / size == 1.0;
    assert a * f <= b * f <= size * f;
  }
}
