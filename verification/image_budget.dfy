/** Image size budgeting and the arithmetic of `optimizeImage` in the OCR background
    script: the size estimate of a data URL, the 15 MB gate, the four-tier
    compression loop, the target canvas size, the quarter-turn swap, the contrast
    stretch and the JPEG quality default.

    Decoding, drawing and JPEG encoding are not modelled: the compression loop
    receives what each `optimizeImage` call returned or threw. */
module ImageBudget {
  import opened Wrappers
  import opened JsString

  /** `MAX_SIZE_MB` of `checkImageSize`. */
  const MaxSizeMB: real := 15.0
  /** The target `extractTextWithGemini` passes to `compressImageToSize`. */
  const CompressTargetMB: real := 10.0
  const Mebibyte: real := 1048576.0
  /** The longest base64 payload whose estimate stays within `MaxSizeMB`. */
  const MaxBase64Length: nat := 20971520

  const InvalidImageMessage: string := "無効な画像データです"
  const CompressFailedMessage: string := "画像サイズを十分に圧縮できませんでした。より小さな領域を選択してください。"
  const CompressErrorPrefix: string := "画像圧縮エラー: "
  const DataImagePrefix: string := "data:image/"

  /** `dataUrl.split(',')[1] || ''`: the payload after the first comma, up to the next. */
  function Base64Part(dataUrl: string): (r: string)
    ensures |r| <= |dataUrl|
    ensures ',' !in r
  {
    var parts := Split(dataUrl, IsComma);
    if |parts| >= 2 then
      SplitPieceLength(dataUrl, IsComma, 1);
      assert NoneOf(parts[1], IsComma);
      parts[1]
    else []
  }

  /** A piece of a split is no longer than the string split. */
  lemma {:induction false} SplitPieceLength(s: string, p: char -> bool, k: nat)
    requires k < |Split(s, p)|
    ensures |Split(s, p)[k]| <= |s|
    decreases |s|
  {
    if |s| > 0 {
      var t := Split(s[1..], p);
      if p(s[0]) {
        if k > 0 {
          SplitPieceLength(s[1..], p, k - 1);
        }
      } else if k == 0 {
        SplitPieceLength(s[1..], p, 0);
      } else {
        SplitPieceLength(s[1..], p, k);
      }
    }
  }

  /** The size estimate in MB: three bytes for every four base64 characters. */
  function SizeMB(dataUrl: string): real {
    (|Base64Part(dataUrl)| as real * 0.75) / Mebibyte
  }

  /** `getDataSize(dataUrl)`, whose early return for a missing URL agrees with the
      estimate. */
  function DataSize(dataUrl: string): (r: real)
    ensures r == SizeMB(dataUrl) && r >= 0.0
  {
    if dataUrl == [] then 0.0 else SizeMB(dataUrl)
  }

  datatype SizeError = InvalidImage | TooLarge(sizeMB: real)

  /** `checkImageSize(dataUrl)`: the estimate, or the error it throws. */
  function CheckImageSize(dataUrl: string): (r: Result<real, SizeError>)
    ensures dataUrl == [] <==> r == Err(InvalidImage)
    ensures r.Ok? ==> r.value == SizeMB(dataUrl) && r.value <= MaxSizeMB
    ensures r.Err? && dataUrl != [] ==> r.error.sizeMB == SizeMB(dataUrl) > MaxSizeMB
  {
    if dataUrl == [] then Err(InvalidImage)
    else if SizeMB(dataUrl) > MaxSizeMB then Err(TooLarge(SizeMB(dataUrl)))
    else Ok(SizeMB(dataUrl))
  }

  /** The 15 MB gate in characters: a non-empty URL passes exactly when its payload
      has at most 20 971 520 base64 characters. */
  lemma {:induction false} CheckImageSizeLength(dataUrl: string)
    requires dataUrl != []
    ensures CheckImageSize(dataUrl).Ok? <==> |Base64Part(dataUrl)| <= MaxBase64Length
  {
    var n := |Base64Part(dataUrl)| as real;
    assert SizeMB(dataUrl) > MaxSizeMB <==> n > MaxBase64Length as real;
  }

  /** One step of `compressImageToSize`. */
  datatype Tier = Tier(quality: real, maxDimension: nat)

  /** `qualityLevels` and `dimensionLimits`, tier by tier. */
  const Tiers: seq<Tier> := [Tier(0.8, 1400), Tier(0.6, 1200), Tier(0.4, 1000), Tier(0.3, 800)]

  /** A tier whose call returned an image within the target. */
  predicate Fits(outcome: Result<string, string>, target: real) {
    outcome.Ok? && SizeMB(outcome.value) <= target
  }

  /** What `compressImageToSize` returns or throws, given what the call of each
      remaining tier returned or threw. */
  function Compressed(outcomes: seq<Result<string, string>>, target: real): (r: Result<string, string>)
    ensures r.Err? ==> r.error == CompressFailedMessage
    ensures r.Ok? ==> SizeMB(r.value) <= target
  {
    if |outcomes| == 0 then Err(CompressFailedMessage)
    else if Fits(outcomes[0], target) then Ok(outcomes[0].value)
    else Compressed(outcomes[1..], target)
  }

  /** The result is the first image within the target, skipping tiers that threw or
      came out too large; compression fails only when no tier fits. */
  lemma {:induction false} CompressedFirstFit(outcomes: seq<Result<string, string>>, target: real)
    ensures Compressed(outcomes, target).Ok? <==> exists i :: 0 <= i < |outcomes| && Fits(outcomes[i], target)
    ensures Compressed(outcomes, target).Ok? ==> exists i :: (0 <= i < |outcomes| && Fits(outcomes[i], target)
      && Compressed(outcomes, target).value == outcomes[i].value && forall j :: 0 <= j < i ==> !Fits(outcomes[j], target))
    decreases |outcomes|
  {
    if |outcomes| > 0 && !Fits(outcomes[0], target) {
      var tail := outcomes[1..];
      CompressedFirstFit(tail, target);
      assert forall i :: 0 < i < |outcomes| ==> outcomes[i] == tail[i - 1];
      var r := Compressed(tail, target);
      if r.Ok? {
        var i :| 0 <= i < |tail| && Fits(tail[i], target)
          && r.value == tail[i].value && forall j :: 0 <= j < i ==> !Fits(tail[j], target);
        assert Fits(outcomes[i + 1], target) && forall j :: 0 <= j < i + 1 ==> !Fits(outcomes[j], target);
      } else {
        assert forall i :: 0 <= i < |outcomes| ==> !Fits(outcomes[i], target);
      }
    } else if |outcomes| > 0 {
      assert Fits(outcomes[0], target);
    }
  }

  /** `compressImageToSize(imageData, target)`: asks for the tiers in order, one
      `optimizeImage` call each, and stops at the first image within the target.
      `outcomes[i]` is what the call for tier `i` returned or threw. */
  method CompressImageToSize(outcomes: seq<Result<string, string>>, target: real)
    returns (r: Result<string, string>, asked: seq<Tier>)
    requires |outcomes| == |Tiers|
    ensures r == Compressed(outcomes, target)
    ensures asked <= Tiers && (r.Err? ==> asked == Tiers)
    ensures r.Ok? ==> |asked| >= 1 && Fits(outcomes[|asked| - 1], target) && r.value == outcomes[|asked| - 1].value
  {
    asked := [];
    var i := 0;
    while i < |Tiers|
      invariant 0 <= i <= |Tiers| && asked == Tiers[..i]
      invariant Compressed(outcomes[i..], target) == Compressed(outcomes, target)
      decreases |Tiers| - i
    {
      asked := asked + [Tiers[i]];
      var outcome := outcomes[i];
      if outcome.Ok? && SizeMB(outcome.value) <= target {
        assert Compressed(outcomes[i..], target) == Ok(outcome.value);
        return Ok(outcome.value), asked;
      }
      assert outcomes[i..][1..] == outcomes[i + 1..];
      i := i + 1;
    }
    assert outcomes[i..] == [];
    r := Err(CompressFailedMessage);
  }

  /** The image handling at the top of `extractTextWithGemini`: reject what is not an
      image data URL, pass an image within 15 MB as is, and compress a larger one to
      10 MB, checking the result again; a compression failure is rethrown with a
      prefix. `tierOutcomes` are the four `optimizeImage` results. */
  function PrepareImage(imageData: string, tierOutcomes: seq<Result<string, string>>): (r: Result<string, string>)
    requires |tierOutcomes| == |Tiers|
    ensures !StartsWith(imageData, DataImagePrefix) ==> r == Err(InvalidImageMessage)
    ensures r.Ok? ==> r.value == imageData || SizeMB(r.value) <= CompressTargetMB
    ensures r.Ok? ==> CheckImageSize(r.value).Ok?
    ensures StartsWith(imageData, DataImagePrefix) && CheckImageSize(imageData).Ok? ==> r == Ok(imageData)
  {
    if !StartsWith(imageData, DataImagePrefix) then Err(InvalidImageMessage)
    else
      match CheckImageSize(imageData)
      case Ok(_) => Ok(imageData)
      case Err(e) =>
        match Compressed(tierOutcomes, CompressTargetMB)
        case Err(m) => Err(CompressErrorPrefix + m)
        case Ok(small) =>
          // The second size check can only fail on an empty result, which no
          // fitting tier produces: a compressed image is within 10 MB.
          if small == [] then Err(CompressErrorPrefix + InvalidImageMessage)
          else Ok(small)
  }

  /** An oversized image whose first tier already fits is replaced by that tier's
      image, and never by a later one. */
  lemma {:induction false} OversizedUsesFirstFit(imageData: string, tierOutcomes: seq<Result<string, string>>)
    requires |tierOutcomes| == |Tiers| && StartsWith(imageData, DataImagePrefix)
    requires CheckImageSize(imageData).Err? && Fits(tierOutcomes[0], CompressTargetMB) && tierOutcomes[0].value != []
    ensures PrepareImage(imageData, tierOutcomes) == Ok(tierOutcomes[0].value)
  {
  }

  /** `Math.round`: the nearest integer, halves rounded up. */
  function Round(x: real): (n: int)
    ensures x - 0.5 < n as real <= x + 0.5
  {
    (x + 0.5).Floor
  }

  /** `Math.abs(rotation % 180) === 90`, with the sign-keeping remainder of JavaScript. */
  predicate QuarterTurn(rotation: int) {
    var rem := if rotation >= 0 then rotation % 180 else -((-rotation) % 180);
    rem == 90 || rem == -90
  }

  /** A rotation counts as a quarter turn exactly when it is an odd multiple of 90
      degrees, whatever its sign. */
  lemma {:induction false} QuarterTurnOddRightAngle(rotation: int)
    ensures QuarterTurn(rotation) <==> rotation % 180 == 90
  {
    if rotation < 0 {
      var k := (-rotation) / 180;
      var m := (-rotation) % 180;
      assert -rotation == 180 * k + m;
      assert rotation == 180 * (-k - 1) + (180 - m);
      if m == 0 {
        assert rotation == 180 * (-k);
      }
    }
  }

  /** `MAX_DIMENSION = options.maxDimension || 1600`. */
  function MaxDimension(requested: Option<nat>): (m: nat)
    ensures m > 0
  {
    if requested.Some? && requested.value > 0 then requested.value else 1600
  }

  /** `targetWidth`/`targetHeight` for a `w`×`h` image and a limit `m`: unchanged when
      both sides fit, otherwise the longer side becomes `m` and the other is scaled
      by the same factor and rounded. The quarter-turn flag picks one of two branches
      of the source that compute the same thing. */
  function TargetSize(w: nat, h: nat, m: nat, quarter: bool): (r: (int, int))
    requires m > 0
    ensures w <= m && h <= m ==> r == (w, h)
    ensures !(w <= m && h <= m) ==> 0 <= r.0 <= m && 0 <= r.1 <= m && (r.0 == m || r.1 == m)
    ensures !(w <= m && h <= m) && w > h ==> r.0 == m && h as real * m as real / w as real - 0.5 < r.1 as real
    ensures !(w <= m && h <= m) && w <= h ==> r.1 == m && w as real * m as real / h as real - 0.5 < r.0 as real
  {
    if quarter then
      if h > m || w > m then
        if h > w then (ScaledSide(w, h, m), m) else (m, ScaledSide(h, w, m))
      else (w, h)
    else
      if w > m || h > m then
        if w > h then (m, ScaledSide(h, w, m)) else (ScaledSide(w, h, m), m)
      else (w, h)
  }

  /** `Math.round(short * (m / long))`: the shorter side scaled with the longer one. */
  function ScaledSide(short: nat, long: nat, m: nat): (r: int)
    requires short <= long && long > m
    ensures 0 <= r <= m
    ensures short as real * m as real / long as real - 0.5 < r as real
    ensures short == long ==> r == m
  {
    var x := short as real * m as real / long as real;
    assert short as real * m as real <= m as real * long as real by {
      assert (long as real - short as real) * m as real >= 0.0;
    }
    QuotientAtMost(short as real * m as real, long as real, m as real);
    SameSideRounds(short, long, m);
    Round(x)
  }

  lemma {:induction false} SameSideRounds(short: nat, long: nat, m: nat)
    requires long > 0
    ensures short == long ==> Round(short as real * m as real / long as real) == m
  {
    if short == long {
      var x := short as real * m as real / long as real;
      SameSideScale(short as real, long as real, m as real);
      assert x == m as real;
      RoundWhole(m);
      assert Round(x) == Round(m as real);
    }
  }

  lemma {:induction false} RoundWhole(k: int)
    ensures Round(k as real) == k
  {
  }

  lemma {:induction false} QuotientAtMost(a: real, b: real, c: real)
    requires b > 0.0 && a <= c * b
    ensures a / b <= c
    ensures a >= 0.0 ==> a / b >= 0.0
  {
    var q := a / b;
    assert q * b == a;
  }

  lemma {:induction false} SameSideScale(a: real, b: real, m: real)
    requires b > 0.0
    ensures a == b ==> a * m / b == m
  {
    if a == b {
      assert a / b == 1.0;
      assert a * m / b == m * (a / b);
    }
  }

  /** The two branches of the resize agree: only the canvas orientation below
      depends on the quarter turn. */
  lemma {:induction false} TargetSizeIgnoresQuarter(w: nat, h: nat, m: nat)
    requires m > 0
    ensures TargetSize(w, h, m, true) == TargetSize(w, h, m, false)
  {
  }

  /** The canvas: width and height exchanged for a quarter turn. */
  function CanvasSize(target: (int, int), quarter: bool): (r: (int, int))
    ensures quarter ==> r.0 == target.1 && r.1 == target.0
    ensures !quarter ==> r == target
  {
    if quarter then (target.1, target.0) else target
  }

  /** The canvas of a quarter-turned image holds the turned image: its sides are the
      target's, exchanged, and never beyond the limit. */
  lemma {:induction false} QuarterCanvasFits(w: nat, h: nat, m: nat)
    requires m > 0
    ensures CanvasSize(TargetSize(w, h, m, true), true).0 <= m || (w <= m && h <= m && h == CanvasSize(TargetSize(w, h, m, true), true).0)
    ensures CanvasSize(TargetSize(w, h, m, true), true).0 == TargetSize(w, h, m, false).1
  {
  }

  /** `Math.max(0, Math.min(255, Math.round(x)))`, the `clamp` helper. */
  function Clamp(x: real): (r: int)
    ensures 0 <= r <= 255
    ensures 0.0 <= x <= 255.0 ==> r == Round(x)
    ensures x < 0.0 ==> r == 0
    ensures x >= 255.0 ==> r == 255
  {
    var n := Round(x);
    if n < 0 then 0 else if n > 255 then 255 else n
  }

  lemma {:induction false} ClampMonotone(x: real, y: real)
    requires x <= y
    ensures Clamp(x) <= Clamp(y)
  {
    assert Round(x) <= Round(y) by {
      assert (x + 0.5).Floor <= (y + 0.5).Floor;
    }
  }

  /** One colour channel after the contrast stretch around mid-grey. */
  function Stretch(v: int, factor: real): (r: int)
    ensures 0 <= r <= 255
  {
    Clamp((v - 128) as real * factor + 128.0)
  }

  /** Mid-grey is a fixed point of every stretch, and a factor of 1 leaves any
      channel value unchanged. */
  lemma {:induction false} StretchFixedPoints(v: int, factor: real)
    ensures Stretch(128, factor) == 128
    ensures 0 <= v <= 255 ==> Stretch(v, 1.0) == v
  {
    assert (128 - 128) as real * factor + 128.0 == 128.0;
  }

  /** The stretch with a factor above 1 pushes every channel away from mid-grey. */
  lemma {:induction false} StretchSpreads(v: int, factor: real)
    requires 0 <= v <= 255 && factor >= 1.0
    ensures v >= 128 ==> Stretch(v, factor) >= v
    ensures v <= 128 ==> Stretch(v, factor) <= v
  {
    var x := (v - 128) as real * factor + 128.0;
    StretchArgument(v, factor);
    RoundWhole(v);
    if v >= 128 {
      ClampMonotone(v as real, x);
    } else {
      ClampMonotone(x, v as real);
    }
  }

  /** The unclamped stretched value lies on the far side of `v` from mid-grey. */
  lemma {:induction false} StretchArgument(v: int, factor: real)
    requires factor >= 1.0
    ensures v >= 128 ==> v as real <= (v - 128) as real * factor + 128.0
    ensures v <= 128 ==> (v - 128) as real * factor + 128.0 <= v as real
  {
    ScaleAway((v - 128) as real, factor);
  }

  /** Scaling by a factor of at least 1 moves a number away from zero. */
  lemma {:induction false} ScaleAway(d: real, f: real)
    requires f >= 1.0
    ensures d >= 0.0 ==> d * f >= d
    ensures d <= 0.0 ==> d * f <= d
  {
    assert d * f - d == d * (f - 1.0);
  }

  /** The pixel loop of `optimizeImage` over RGBA bytes: each red, green and blue
      byte is stretched, each alpha byte is kept. */
  method ApplyContrast(data: seq<int>, factor: real) returns (out: seq<int>)
    ensures |out| == |data|
    ensures forall k :: 0 <= k < |data| && k % 4 == 3 ==> out[k] == data[k]
    ensures forall k :: 0 <= k < |data| && k % 4 != 3 ==> out[k] == Stretch(data[k], factor)
  {
    out := data;
    var i := 0;
    while i < |data|
      invariant 0 <= i && i % 4 == 0 && |out| == |data|
      invariant forall k :: 0 <= k < |data| && (k >= i || k % 4 == 3) ==> out[k] == data[k]
      invariant forall k :: 0 <= k < i && k < |data| && k % 4 != 3 ==> out[k] == Stretch(data[k], factor)
      decreases |data| - i
    {
      var j := 0;
      while j < 3
        invariant 0 <= j <= 3 && |out| == |data|
        invariant forall k :: 0 <= k < |data| && (k >= i + j || k % 4 == 3) ==> out[k] == data[k]
        invariant forall k :: 0 <= k < i + j && k < |data| && k % 4 != 3 ==> out[k] == Stretch(data[k], factor)
        decreases 3 - j
      {
        if i + j < |data| {
          out := out[i + j := Stretch(data[i + j], factor)];
        }
        j := j + 1;
      }
      i := i + 4;
    }
  }

  /** The JPEG quality: the caller's, or 0.88 for canvases above 800 000 pixels and
      0.95 otherwise. */
  function Quality(requested: Option<real>, canvas: (int, int)): (q: real)
    ensures requested.Some? ==> q == requested.value
    ensures requested.None? ==> (q == 0.88 <==> canvas.0 * canvas.1 > 800000)
    ensures requested.None? ==> q == 0.88 || q == 0.95
  {
    if requested.Some? then requested.value
    else if canvas.0 * canvas.1 > 800000 then 0.88 else 0.95
  }

  /** The compression tiers always pass a quality, so the default never applies to
      them, and each tier asks for a lower quality and a smaller image than the one
      before. */
  lemma {:induction false} TiersDecrease()
    ensures forall i :: 0 < i < |Tiers| ==>
      Tiers[i].quality < Tiers[i - 1].quality && Tiers[i].maxDimension < Tiers[i - 1].maxDimension
    ensures forall i, c :: 0 <= i < |Tiers| ==> Quality(Some(Tiers[i].quality), c) == Tiers[i].quality
  {
  }
}
