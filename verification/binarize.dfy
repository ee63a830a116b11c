/**
 * binarize.py: load an image with its alpha channel, threshold the alpha
 * channel with OpenCV's THRESH_BINARY rule and merge it back with the
 * untouched blue, green and red channels.
 */
module Binarize {
  import opened Wrappers
  import PyText

  type Byte = x: int | 0 <= x < 256

  /** One pixel: one 8-bit value per channel, in OpenCV's order (B, G, R, A for four channels). */
  type Pixel = seq<Byte>

  /** One channel of an image: rows of 8-bit values. */
  type Plane = seq<seq<Byte>>

  /** A decoded 8-bit image as `cv2.imread(path, cv2.IMREAD_UNCHANGED)` returns it. */
  datatype Mat = Mat(channels: nat, rows: seq<seq<Pixel>>) {

    function Height(): nat {
      |rows|
    }

    function Width(): nat {
      if rows == [] then 0 else |rows[0]|
    }

    /** Every row has the same width and every pixel has `channels` values. */
    ghost predicate Valid() {
      && (forall i :: 0 <= i < |rows| ==> |rows[i]| == Width())
      && (forall i, j :: 0 <= i < |rows| && 0 <= j < |rows[i]| ==> |rows[i][j]| == channels)
    }
  }


  const ThresholdDefault: int := 128
  const ScriptThresholdDefault: int := 254
  const MaxValue: Byte := 255

  /** `cv2.split`: one plane per channel. */
  function SplitChannels(m: Mat): (planes: seq<Plane>)
    requires m.Valid()
    ensures |planes| == m.channels
    ensures forall c :: 0 <= c < m.channels ==> |planes[c]| == m.Height()
    ensures forall c, i :: 0 <= c < m.channels && 0 <= i < m.Height() ==> |planes[c][i]| == m.Width()
    ensures forall c, i, j :: 0 <= c < m.channels && 0 <= i < m.Height() && 0 <= j < m.Width() ==>
      planes[c][i][j] == m.rows[i][j][c]
  {
    seq(m.channels, c requires 0 <= c < m.channels =>
      seq(m.Height(), i requires 0 <= i < m.Height() =>
        seq(m.Width(), j requires 0 <= j < m.Width() => m.rows[i][j][c])))
  }

  /** `cv2.merge`: planes of one shape become the channels of one image, in order. */
  function MergeChannels(planes: seq<Plane>, height: nat, width: nat): (m: Mat)
    requires forall c :: 0 <= c < |planes| ==> |planes[c]| == height
    requires forall c, i :: 0 <= c < |planes| && 0 <= i < height ==> |planes[c][i]| == width
    ensures m.Valid() && m.channels == |planes| && m.Height() == height
    ensures height > 0 ==> m.Width() == width
    ensures forall c, i, j :: 0 <= c < |planes| && 0 <= i < height && 0 <= j < width ==>
      m.rows[i][j][c] == planes[c][i][j]
  {
    Mat(|planes|,
      seq(height, i requires 0 <= i < height =>
        seq(width, j requires 0 <= j < width =>
          seq(|planes|, c requires 0 <= c < |planes| => planes[c][i][j]))))
  }

  /** `cv2.threshold(src, thresh, maxval, cv2.THRESH_BINARY)` on an 8-bit plane. */
  function ThresholdBinary(src: Plane, thresh: int, maxval: Byte): (dst: Plane)
    ensures |dst| == |src|
    ensures forall i :: 0 <= i < |src| ==> |dst[i]| == |src[i]|
    ensures forall i, j :: 0 <= i < |src| && 0 <= j < |src[i]| ==>
      dst[i][j] == if src[i][j] > thresh then maxval else 0
  {
    seq(|src|, i requires 0 <= i < |src| =>
      seq(|src[i]|, j requires 0 <= j < |src[i]| => if src[i][j] > thresh then maxval else 0))
  }

  /** What binarising does to one BGRA pixel: colour kept, alpha 255 exactly when above the threshold. */
  function BinarizedPixel(p: Pixel, threshold: int): Pixel
    requires |p| == 4
  {
    [p[0], p[1], p[2], if p[3] > threshold then 255 else 0]
  }

  datatype BinarizeError =
    | ImageNotLoaded    // cv2.imread returned None: "Image not found or unable to load image."
    | NotFourChannels   // the four-way unpack of cv2.split's result fails

  /**
   * `binarize_alpha_channel`, given what `cv2.imread` decoded from the path
   * (`None` when it could not).
   */
  function BinarizeAlphaChannel(image: Option<Mat>, threshold: int := ThresholdDefault): (r: Result<Mat, BinarizeError>)
    requires image.Some? ==> image.value.Valid()
    ensures image.None? ==> r == Failure(ImageNotLoaded)
    ensures image.Some? && image.value.channels != 4 ==> r == Failure(NotFourChannels)
    ensures image.Some? && image.value.channels == 4 ==>
      && r.Success?
      && r.value.Valid()
      && r.value.channels == 4
      && r.value.Height() == image.value.Height()
      && r.value.Width() == image.value.Width()
      && forall i, j :: 0 <= i < r.value.Height() && 0 <= j < r.value.Width() ==>
           r.value.rows[i][j] == BinarizedPixel(image.value.rows[i][j], threshold)
  {
    if image.None? then Failure(ImageNotLoaded)
    else
      var m := image.value;
      var planes := SplitChannels(m);
      if |planes| != 4 then Failure(NotFourChannels)
      else
        var alphaBinary := ThresholdBinary(planes[3], threshold, MaxValue);
        var out := MergeChannels([planes[0], planes[1], planes[2], alphaBinary], m.Height(), m.Width());
        assert forall i, j :: 0 <= i < out.Height() && 0 <= j < out.Width() ==>
          out.rows[i][j] == BinarizedPixel(m.rows[i][j], threshold) by {
          forall i, j | 0 <= i < out.Height() && 0 <= j < out.Width()
            ensures out.rows[i][j] == BinarizedPixel(m.rows[i][j], threshold)
          {
            assert |out.rows[i][j]| == 4;
          }
        }
        Success(out)
  }

  /**
   * Every output pixel keeps the input's blue, green and red values, and its
   * alpha is 255 exactly when the input alpha is strictly above the threshold
   * and 0 otherwise.
   */
  lemma OutputPixel(m: Mat, threshold: int, i: nat, j: nat)
    requires m.Valid() && m.channels == 4
    requires i < m.Height() && j < m.Width()
    ensures var out := BinarizeAlphaChannel(Some(m), threshold).value;
      && |out.rows[i][j]| == 4
      && out.rows[i][j][..3] == m.rows[i][j][..3]
      && (out.rows[i][j][3] == 255 <==> m.rows[i][j][3] > threshold)
      && (out.rows[i][j][3] == 0 <==> m.rows[i][j][3] <= threshold)
  {
  }

  /** An output pixel is determined by the input pixel at the same position alone. */
  lemma PixelwiseLocality(m1: Mat, m2: Mat, threshold: int, i1: nat, j1: nat, i2: nat, j2: nat)
    requires m1.Valid() && m1.channels == 4 && m2.Valid() && m2.channels == 4
    requires i1 < m1.Height() && j1 < m1.Width() && i2 < m2.Height() && j2 < m2.Width()
    requires m1.rows[i1][j1] == m2.rows[i2][j2]
    ensures BinarizeAlphaChannel(Some(m1), threshold).value.rows[i1][j1]
         == BinarizeAlphaChannel(Some(m2), threshold).value.rows[i2][j2]
  {
  }

  /**
   * Binarising an already binarised image with the same threshold changes
   * nothing, for every threshold (below 0 everything is already 255, from 255
   * on everything is already 0).
   */
  lemma Idempotent(m: Mat, threshold: int)
    requires m.Valid() && m.channels == 4
    ensures var once := BinarizeAlphaChannel(Some(m), threshold).value;
      BinarizeAlphaChannel(Some(once), threshold) == Success(once)
  {
    var once := BinarizeAlphaChannel(Some(m), threshold).value;
    var twice := BinarizeAlphaChannel(Some(once), threshold).value;
    assert twice.rows == once.rows by {
      assert |twice.rows| == |once.rows|;
      forall i | 0 <= i < |once.rows|
        ensures twice.rows[i] == once.rows[i]
      {
        assert |twice.rows[i]| == |once.rows[i]|;
        forall j | 0 <= j < |once.rows[i]|
          ensures twice.rows[i][j] == once.rows[i][j]
        {
          var p := m.rows[i][j];
          assert once.rows[i][j] == BinarizedPixel(p, threshold);
        }
      }
    }
  }

  /** Raising the threshold never turns a transparent output pixel opaque. */
  lemma MonotoneInThreshold(m: Mat, low: int, high: int, i: nat, j: nat)
    requires m.Valid() && m.channels == 4
    requires low <= high
    requires i < m.Height() && j < m.Width()
    ensures BinarizeAlphaChannel(Some(m), high).value.rows[i][j][3]
         <= BinarizeAlphaChannel(Some(m), low).value.rows[i][j][3]
  {
  }

  /** The exception a run of the script ends with. */
  datatype ScriptError =
    | MissingArgument                 // argv[1] or argv[2] absent: IndexError
    | InvalidThreshold                // int(argv[3]) raises ValueError
    | Binarize(cause: BinarizeError)  // binarize_alpha_channel raises

  /** The file the script writes: `cv2.imwrite(path, image)`. */
  datatype Written = Written(path: string, image: Mat)

  /** The threshold the script uses: 254 unless a third argument is given. */
  function ThresholdArgument(argv: seq<string>): (r: Result<int, ScriptError>)
    ensures |argv| <= 3 ==> r == Success(ScriptThresholdDefault)
    ensures |argv| > 3 ==> (r.Success? <==> PyText.ParseInt(argv[3]).Some?)
    ensures |argv| > 3 && r.Success? ==> r.value == PyText.ParseInt(argv[3]).value
    ensures r.Failure? ==> r.error == InvalidThreshold
  {
    if |argv| > 3 then
      match PyText.ParseInt(argv[3])
      case Some(t) => Success(t)
      case None => Failure(InvalidThreshold)
    else Success(ScriptThresholdDefault)
  }

  /** A third argument written as an integer sets exactly that threshold. */
  lemma ThresholdArgumentRoundTrip(argv: seq<string>, n: int)
    requires |argv| > 3 && argv[3] == PyText.FormatInt(n)
    ensures ThresholdArgument(argv) == Success(n)
  {
    PyText.ParseFormatRoundTrip(n);
  }

  /**
   * The script `binarize.py <input> <output> [threshold]`. `imread` stands
   * for what `cv2.imread(path, cv2.IMREAD_UNCHANGED)` decodes from a path.
   */
  function RunScript(argv: seq<string>, imread: string -> Option<Mat>): (r: Result<Written, ScriptError>)
    requires forall path :: imread(path).Some? ==> imread(path).value.Valid()
    ensures |argv| < 3 ==> r == Failure(MissingArgument)
    ensures r.Success? <==>
      && |argv| >= 3
      && ThresholdArgument(argv).Success?
      && imread(argv[1]).Some?
      && imread(argv[1]).value.channels == 4
    ensures r.Success? ==>
      && r.value.path == argv[2]
      && Success(r.value.image) == BinarizeAlphaChannel(imread(argv[1]), ThresholdArgument(argv).value)
    ensures |argv| >= 3 && ThresholdArgument(argv).Success? && imread(argv[1]).None? ==>
      r == Failure(Binarize(ImageNotLoaded))
  {
    if |argv| < 3 then Failure(MissingArgument)
    else
      match ThresholdArgument(argv)
      case Failure(e) => Failure(e)
      case Success(threshold) =>
        match BinarizeAlphaChannel(imread(argv[1]), threshold)
        case Failure(e) => Failure(Binarize(e))
        case Success(out) => Success(Written(argv[2], out))
  }

  /** Alphas 0, 64, 128, 200, 255 at threshold 128 become 0, 0, 0, 255, 255. */
  lemma StrictlyGreaterExample()
    ensures ThresholdBinary([[0, 64, 128, 200, 255]], 128, MaxValue) == [[0, 0, 0, 255, 255]]
  {
    var dst := ThresholdBinary([[0, 64, 128, 200, 255]], 128, MaxValue);
    assert dst[0] == [0, 0, 0, 255, 255];
  }
}
