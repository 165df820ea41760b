/** The three frame-sequence analysers of the traditional quality evaluator:
    Laplacian sharpness, structural similarity (SSIM) and peak
    signal-to-noise ratio (PSNR).

    Decoding is abstract: a video is the finite sequence of grayscale frames
    the decoder yields. The floating-point kernels (Laplacian variance, SSIM
    of a frame pair, and the decibel formula `20 * log10(255 / sqrt(mse))`)
    are parameters. What is modelled exactly is the control around them: the
    error cases, the frame-pairing policy, the arithmetic mean (exact over
    `real`), the strict threshold labels, and the 8-bit `mse` of PSNR. */
module VideoQuality {
  import opened Results

  /** An 8-bit grayscale intensity. */
  type Byte = x: int | 0 <= x < 256

  /** A grayscale frame, its pixels in row-major order. */
  type Frame = seq<Byte>

  /** What `cv2.VideoCapture` gives: a file it could not open, or one whose
      decodable frames are `frames`, in presentation order. */
  datatype Video = Unopenable | Opened(frames: seq<Frame>)

  /** Every frame of one decoded video has the same, nonzero, size. */
  predicate SameResolution(frames: seq<Frame>) {
    forall i :: 0 <= i < |frames| ==> 0 < |frames[i]| == |frames[0]|
  }

  /** The videos a decoder produces. */
  type DecodedVideo = v: Video | v.Unopenable? || SameResolution(v.frames) witness Unopenable

  /** The frames successive `cap.read()` calls return before the first
      failed read; a capture that did not open reads nothing. */
  function ReadFrames(video: Video): seq<Frame> {
    if video.Opened? then video.frames else []
  }

  datatype Label = Clear | Blur

  /** A float as numpy produces it here: finite, +inf, or NaN. Negative
      infinity cannot arise from any of the three analysers. */
  datatype Score = Finite(value: real) | Inf | NaN

  /** The float comparison `score > threshold`. */
  predicate Exceeds(score: Score, threshold: real) {
    match score
    case Finite(v) => v > threshold
    case Inf => true
    case NaN => false
  }

  /** `"Clear" if score > threshold else "Blur"`. */
  function Classify(score: Score, threshold: real): (verdict: Label)
    ensures score.Finite? ==> (verdict == Clear <==> score.value > threshold)
    ensures score.Inf? ==> verdict == Clear
    ensures score.NaN? ==> verdict == Blur
  {
    if Exceeds(score, threshold) then Clear else Blur
  }

  const LaplacianThreshold: real := 100.0
  const SsimThreshold: real := 0.75
  const PsnrThreshold: real := 30.0

  /** An analyser's `(score, quality)` pair. */
  datatype Assessment = Assessment(score: Score, quality: Label)

  function Assess(score: Score, threshold: real): Assessment {
    Assessment(score, Classify(score, threshold))
  }

  /** The two `ValueError`s the Laplacian analyser raises. */
  datatype VideoError = OpenFailed | NoFrames

  // ---------------------------------------------------------------------
  // The arithmetic mean (`np.mean`), exact over the reals.
  // ---------------------------------------------------------------------

  /** Left-to-right sum. */
  function Total(xs: seq<real>): real {
    if xs == [] then 0.0 else Total(xs[..|xs| - 1]) + xs[|xs| - 1]
  }

  /** `m` is the arithmetic mean of `xs`: taken once per term, it adds up
      to their total. */
  predicate IsMeanOf(m: real, xs: seq<real>) {
    m * (|xs| as real) == Total(xs)
  }

  /** A non-empty list has only one mean. */
  lemma MeanUnique(m: real, m': real, xs: seq<real>)
    requires |xs| > 0 && IsMeanOf(m, xs) && IsMeanOf(m', xs)
    ensures m == m'
  {
    var n := |xs| as real;
    assert (m - m') * n == 0.0;
  }

  function Mean(xs: seq<real>): (m: real)
    requires |xs| > 0
    ensures IsMeanOf(m, xs)
  {
    Total(xs) / (|xs| as real)
  }

  lemma {:induction false} TotalBounds(xs: seq<real>, lo: real, hi: real)
    requires forall i :: 0 <= i < |xs| ==> lo <= xs[i] <= hi
    ensures (|xs| as real) * lo <= Total(xs) <= (|xs| as real) * hi
  {
    if xs != [] {
      TotalBounds(xs[..|xs| - 1], lo, hi);
    }
  }

  /** The mean lies between any lower and upper bound of its terms. */
  lemma MeanBounds(xs: seq<real>, lo: real, hi: real)
    requires |xs| > 0
    requires forall i :: 0 <= i < |xs| ==> lo <= xs[i] <= hi
    ensures lo <= Mean(xs) <= hi
  {
    TotalBounds(xs, lo, hi);
    var n := |xs| as real;
    assert n * lo <= Total(xs) <= n * hi;
    assert Total(xs) / n >= lo by {
      assert (Total(xs) / n) * n == Total(xs);
    }
    assert Total(xs) / n <= hi by {
      assert (Total(xs) / n) * n == Total(xs);
    }
  }

  /** The finite values of an all-finite score list. */
  function Values(xs: seq<Score>): (vs: seq<real>)
    requires forall i :: 0 <= i < |xs| ==> xs[i].Finite?
    ensures |vs| == |xs|
    ensures forall i :: 0 <= i < |xs| ==> vs[i] == xs[i].value
  {
    if xs == [] then [] else [xs[0].value] + Values(xs[1..])
  }

  /** `np.mean` of a list of floats: NaN when the list is empty or holds a
      NaN, +inf when it holds +inf, otherwise the arithmetic mean. */
  function MeanScore(xs: seq<Score>): (m: Score)
    ensures m.NaN? <==> |xs| == 0 || exists i :: 0 <= i < |xs| && xs[i].NaN?
    ensures m.Inf? <==> |xs| > 0 && (exists i :: 0 <= i < |xs| && xs[i].Inf?)
                                 && (forall i :: 0 <= i < |xs| ==> !xs[i].NaN?)
    ensures m.Finite? ==> |xs| > 0 && forall i :: 0 <= i < |xs| ==> xs[i].Finite?
    ensures m.Finite? ==> IsMeanOf(m.value, Values(xs))
  {
    if |xs| == 0 || exists i :: 0 <= i < |xs| && xs[i].NaN? then NaN
    else if exists i :: 0 <= i < |xs| && xs[i].Inf? then Inf
    else Finite(Mean(Values(xs)))
  }

  /** Finite scores of the given values. */
  function Finites(vs: seq<real>): (xs: seq<Score>)
    ensures |xs| == |vs|
    ensures forall i :: 0 <= i < |vs| ==> xs[i] == Finite(vs[i])
    ensures Values(xs) == vs
  {
    seq(|vs|, i requires 0 <= i < |vs| => Finite(vs[i]))
  }

  /** `np.mean` of finite values: NaN for none, otherwise their mean. */
  lemma MeanOfFinites(vs: seq<real>)
    ensures vs == [] ==> MeanScore(Finites(vs)) == NaN
    ensures vs != [] ==> MeanScore(Finites(vs)) == Finite(Mean(vs))
  {
    var xs := Finites(vs);
    if vs != [] {
      assert forall i :: 0 <= i < |xs| ==> !xs[i].NaN? && !xs[i].Inf?;
    }
  }

  /** A finite mean lies between any bounds of the finite terms. */
  lemma MeanScoreBounds(xs: seq<Score>, lo: real, hi: real)
    requires MeanScore(xs).Finite?
    requires forall i :: 0 <= i < |xs| ==> xs[i].Finite? ==> lo <= xs[i].value <= hi
    ensures lo <= MeanScore(xs).value <= hi
  {
    MeanBounds(Values(xs), lo, hi);
  }

  // ---------------------------------------------------------------------
  // Laplacian sharpness
  // ---------------------------------------------------------------------

  /** The per-frame list `laplacian_values`: one variance appended per
      decoded frame, in presentation order. */
  function LaplacianValues(frames: seq<Frame>, variance: Frame -> real): (values: seq<real>)
    ensures |values| == |frames|
    ensures forall i :: 0 <= i < |frames| ==> values[i] == variance(frames[i])
  {
    if frames == [] then []
    else LaplacianValues(frames[..|frames| - 1], variance) + [variance(frames[|frames| - 1])]
  }

  /** `laplacian_video_quality`: fails before reading when the file cannot
      be opened, fails when no frame decodes, and otherwise scores the
      mean per-frame Laplacian variance against the fixed threshold 100. */
  function LaplacianQuality(video: Video, variance: Frame -> real): (r: Result<Assessment, VideoError>)
    ensures r == Failure(OpenFailed) <==> video.Unopenable?
    ensures r == Failure(NoFrames) <==> video == Opened([])
    ensures r.Success? ==> r.value.score.Finite?
    ensures r.Success? ==> (r.value.quality == Clear <==> r.value.score.value > LaplacianThreshold)
    ensures r.Success? ==> IsMeanOf(r.value.score.value, LaplacianValues(video.frames, variance))
  {
    if video.Unopenable? then Failure(OpenFailed)
    else
      var values := LaplacianValues(video.frames, variance);
      if values == [] then Failure(NoFrames)
      else Success(Assess(Finite(Mean(values)), LaplacianThreshold))
  }

  /** The Laplacian score lies between the least and greatest per-frame
      variance; so every frame sharper than the threshold makes the video
      "Clear", and none sharper makes it "Blur". */
  lemma LaplacianBetweenFrameExtremes(video: Video, variance: Frame -> real, lo: real, hi: real)
    requires video.Opened? && |video.frames| > 0
    requires forall i :: 0 <= i < |video.frames| ==> lo <= variance(video.frames[i]) <= hi
    ensures LaplacianQuality(video, variance).Success?
    ensures lo <= LaplacianQuality(video, variance).value.score.value <= hi
    ensures lo > LaplacianThreshold ==> LaplacianQuality(video, variance).value.quality == Clear
    ensures hi <= LaplacianThreshold ==> LaplacianQuality(video, variance).value.quality == Blur
  {
    MeanBounds(LaplacianValues(video.frames, variance), lo, hi);
  }

  /** A single-frame video scores exactly that frame's variance. */
  lemma LaplacianSingleFrame(f: Frame, variance: Frame -> real)
    ensures LaplacianQuality(Opened([f]), variance).Success?
    ensures LaplacianQuality(Opened([f]), variance).value.score == Finite(variance(f))
  {
    LaplacianBetweenFrameExtremes(Opened([f]), variance, variance(f), variance(f));
  }

  // ---------------------------------------------------------------------
  // Consecutive-pair policy shared by SSIM and PSNR
  // ---------------------------------------------------------------------

  /** The pairs the `prev_frame` loop compares once `prev` has been read
      and `rest` are the frames still to come. */
  function PairsAfter(prev: Frame, rest: seq<Frame>): (pairs: seq<(Frame, Frame)>)
    ensures |pairs| == |rest|
    ensures forall k :: 0 <= k < |rest| ==> pairs[k] == (([prev] + rest)[k], rest[k])
    decreases |rest|
  {
    if rest == [] then []
    else
      var tail := PairsAfter(rest[0], rest[1..]);
      assert forall k :: 1 <= k < |rest| ==> ([rest[0]] + rest[1..])[k - 1] == ([prev] + rest)[k];
      [(prev, rest[0])] + tail
  }

  /** The comparisons made over a whole video: none without a first frame,
      and otherwise frame k against frame k + 1 for every k. */
  function ConsecutivePairs(frames: seq<Frame>): (pairs: seq<(Frame, Frame)>)
    ensures |pairs| == if frames == [] then 0 else |frames| - 1
    ensures forall k :: 0 <= k < |pairs| ==> pairs[k] == (frames[k], frames[k + 1])
  {
    if frames == [] then []
    else
      assert [frames[0]] + frames[1..] == frames;
      PairsAfter(frames[0], frames[1..])
  }

  // ---------------------------------------------------------------------
  // Structural similarity
  // ---------------------------------------------------------------------

  /** `structural_similarity_video_quality`: the mean SSIM of consecutive
      frames. There is no open check: an unopenable file, like a file of
      fewer than two frames, yields no comparison, a NaN mean and "Blur". */
  function SsimQuality(video: Video, ssim: (Frame, Frame) -> real, threshold: real): (a: Assessment)
    ensures |ReadFrames(video)| < 2 ==> a == Assessment(NaN, Blur)
    ensures |ReadFrames(video)| >= 2 ==> a.score.Finite?
    ensures |ReadFrames(video)| >= 2 ==> IsMeanOf(a.score.value, SsimValues(ReadFrames(video), ssim))
    ensures a.quality == Clear <==> Exceeds(a.score, threshold)
  {
    var frames := ReadFrames(video);
    var values := SsimValues(frames, ssim);
    MeanOfFinites(values);
    var mean := MeanScore(Finites(values));
    assert |frames| < 2 ==> mean == NaN;
    assert |frames| >= 2 ==> mean.Finite? && IsMeanOf(mean.value, values);
    Assess(mean, threshold)
  }

  /** `ssim_values`: the similarity of each frame with the next. */
  function SsimValues(frames: seq<Frame>, ssim: (Frame, Frame) -> real): (values: seq<real>)
    ensures |values| == if frames == [] then 0 else |frames| - 1
    ensures forall k :: 0 <= k < |values| ==> values[k] == ssim(frames[k], frames[k + 1])
  {
    var pairs := ConsecutivePairs(frames);
    seq(|pairs|, k requires 0 <= k < |pairs| => ssim(pairs[k].0, pairs[k].1))
  }

  /** The SSIM score lies between any bounds of the consecutive-pair
      similarities. */
  lemma SsimBetweenPairExtremes(video: Video, ssim: (Frame, Frame) -> real, threshold: real, lo: real, hi: real)
    requires |ReadFrames(video)| >= 2
    requires forall k :: 0 <= k < |ReadFrames(video)| - 1 ==>
               lo <= ssim(ReadFrames(video)[k], ReadFrames(video)[k + 1]) <= hi
    ensures lo <= SsimQuality(video, ssim, threshold).score.value <= hi
  {
    MeanScoreBounds(Finites(SsimValues(ReadFrames(video), ssim)), lo, hi);
  }

  /** A still video (one frame repeated, at least twice) is "Clear" by SSIM
      whenever the similarity of a frame with itself is 1. */
  lemma SsimStillVideo(f: Frame, n: nat, ssim: (Frame, Frame) -> real)
    requires n >= 2
    requires ssim(f, f) == 1.0
    ensures SsimQuality(Opened(seq(n, _ => f)), ssim, SsimThreshold) == Assessment(Finite(1.0), Clear)
  {
    var video := Opened(seq(n, _ => f));
    SsimBetweenPairExtremes(video, ssim, SsimThreshold, 1.0, 1.0);
  }

  // ---------------------------------------------------------------------
  // Peak signal-to-noise ratio
  // ---------------------------------------------------------------------

  /** Reduction to `uint8`: numpy's wrap-around on 8-bit arrays. */
  function Wrap8(x: int): Byte {
    x % 256
  }

  lemma SquareParity(x: int)
    ensures (x * x) % 2 == x % 2
  {
    var q := x / 2;
    var r := x % 2;
    assert x == 2 * q + r;
    assert x * x == 2 * (2 * q * q + 2 * q * r) + r * r;
    assert r * r == r;
  }

  lemma MultipleMod(m: int, k: int)
    requires m > 0
    ensures (m * k) % m == 0
  {
    var t := k - (m * k) / m;
    assert m * t == (m * k) % m;
    if t >= 1 {
      assert m * t == m + m * (t - 1);
    } else if t <= -1 {
      assert m * t == -m + m * (t + 1);
    }
  }

  /** If a square is a multiple of 4m, its root is even and half the root
      squared is a multiple of m. */
  lemma HalveSquare(d: int, m: int) returns (e: int)
    requires m > 0 && (d * d) % (4 * m) == 0
    ensures d == 2 * e && (e * e) % m == 0
  {
    var k := (d * d) / (4 * m);
    assert d * d == (4 * m) * k;
    assert d * d == 2 * (2 * m * k);
    MultipleMod(2, 2 * m * k);
    SquareParity(d);
    e := d / 2;
    assert d * d == 4 * (e * e);
    assert e * e == m * k;
    MultipleMod(m, k);
  }

  /** A square is a multiple of 256 exactly when its root is a multiple of 16. */
  lemma {:induction false} SquareMultipleOf256(d: int)
    ensures (d * d) % 256 == 0 <==> d % 16 == 0
  {
    if (d * d) % 256 == 0 {
      var e := HalveSquare(d, 64);
      var f := HalveSquare(e, 16);
      var g := HalveSquare(f, 4);
      var h := HalveSquare(g, 1);
      assert d == 16 * h;
    }
    if d % 16 == 0 {
      var h := d / 16;
      assert d * d == 256 * (h * h);
      MultipleMod(256, h * h);
    }
  }

  /** Wrapping to 8 bits keeps the residue modulo 16, as 16 divides 256. */
  lemma WrapKeepsResidue16(x: int)
    ensures (x % 256) % 16 == x % 16
  {
    var q, r := x / 256, x % 256;
    var u, v := r / 16, r % 16;
    assert x == 256 * q + r;
    assert r == 16 * u + v;
    assert x == 16 * (16 * q + u) + v;
    ResidueOf16(x, 16 * q + u, v);
  }

  /** The residue modulo 16 of `16 k + v`, for `v` in 0..15, is `v`. */
  lemma ResidueOf16(x: int, k: int, v: int)
    requires 0 <= v < 16 && x == 16 * k + v
    ensures x % 16 == v
  {
  }

  /** One pixel's term of `(prev_frame - gray_frame) ** 2` on `uint8`
      arrays: the difference wraps modulo 256, and so does its square. It is
      zero exactly when the two intensities differ by a multiple of 16. */
  function SquaredErrorU8(a: Byte, b: Byte): (e: Byte)
    ensures e == 0 <==> (a as int - b as int) % 16 == 0
  {
    var d := Wrap8(a as int - b as int);
    SquareMultipleOf256(d);
    WrapKeepsResidue16(a as int - b as int);
    Wrap8(d * d)
  }

  /** Two frames of one size whose every pixel difference is a multiple of 16. */
  predicate Congruent16(a: Frame, b: Frame) {
    |a| == |b| && forall i :: 0 <= i < |a| ==> (a[i] as int - b[i] as int) % 16 == 0
  }

  /** The sum of the 8-bit squared errors. */
  function ErrorSum(a: Frame, b: Frame): (s: nat)
    requires |a| == |b|
    ensures s <= 255 * |a|
    ensures s == 0 <==> Congruent16(a, b)
  {
    if a == [] then 0
    else
      var n := |a| - 1;
      var rest := ErrorSum(a[..n], b[..n]);
      assert Congruent16(a, b) <==> Congruent16(a[..n], b[..n]) && (a[n] as int - b[n] as int) % 16 == 0;
      rest + SquaredErrorU8(a[n], b[n])
  }

  /** A total of at most 255 per term, divided by the number of terms. */
  lemma MeanOfBounded(s: real, n: real)
    requires n > 0.0 && 0.0 <= s <= 255.0 * n
    ensures 0.0 <= s / n <= 255.0
    ensures s / n == 0.0 <==> s == 0.0
  {
    assert (s / n) * n == s;
  }

  /** `np.mean((prev_frame - gray_frame) ** 2)` on `uint8` frames. Because
      every term wraps below 256 the mean never exceeds 255, and it is zero
      exactly when every pixel difference is a multiple of 16. */
  function Mse(a: Frame, b: Frame): (m: real)
    requires 0 < |a| == |b|
    ensures 0.0 <= m <= 255.0
    ensures m == 0.0 <==> Congruent16(a, b)
  {
    var n := |a| as real;
    var s := ErrorSum(a, b) as real;
    MeanOfBounded(s, n);
    s / n
  }

  /** The 8-bit squared error of each pixel, in pixel order. */
  function PixelErrors(a: Frame, b: Frame): (errors: seq<real>)
    requires |a| == |b|
    ensures |errors| == |a|
    ensures forall i :: 0 <= i < |a| ==> errors[i] == SquaredErrorU8(a[i], b[i]) as real
  {
    seq(|a|, i requires 0 <= i < |a| => SquaredErrorU8(a[i], b[i]) as real)
  }

  /** `ErrorSum` is the total of the per-pixel errors. */
  lemma {:induction false} ErrorSumIsTotal(a: Frame, b: Frame)
    requires |a| == |b|
    ensures ErrorSum(a, b) as real == Total(PixelErrors(a, b))
  {
    if a != [] {
      var n := |a| - 1;
      ErrorSumIsTotal(a[..n], b[..n]);
      assert PixelErrors(a, b)[..n] == PixelErrors(a[..n], b[..n]);
    }
  }

  /** Dividing by a non-zero number and multiplying back. */
  lemma DivMul(t: real, n: real)
    requires n != 0.0
    ensures (t / n) * n == t
  {
  }

  /** The total divided by the number of terms is their mean. */
  lemma QuotientIsMean(m: real, t: real, xs: seq<real>)
    requires |xs| > 0 && t == Total(xs) && m == t / (|xs| as real)
    ensures IsMeanOf(m, xs)
  {
    DivMul(t, |xs| as real);
  }

  /** `mse` is the mean of the 8-bit squared pixel errors. */
  lemma MseIsMean(a: Frame, b: Frame)
    requires 0 < |a| == |b|
    ensures IsMeanOf(Mse(a, b), PixelErrors(a, b))
  {
    ErrorSumIsTotal(a, b);
    QuotientIsMean(Mse(a, b), ErrorSum(a, b) as real, PixelErrors(a, b));
  }

  /** One pair's PSNR: +inf when `mse` is zero, otherwise the (abstract)
      decibel formula applied to `mse`. */
  function PairPsnr(a: Frame, b: Frame, decibels: real -> real): (s: Score)
    requires 0 < |a| == |b|
    ensures s.Inf? <==> Congruent16(a, b)
    ensures s.Finite? <==> !Congruent16(a, b)
    ensures s.Finite? ==> exists m :: 0.0 < m <= 255.0 && s.value == decibels(m)
    ensures s.Finite? ==> s.value == decibels(Mse(a, b))
  {
    var m := Mse(a, b);
    if m == 0.0 then Inf else Finite(decibels(m))
  }

  /** Identical frames score +inf ... */
  lemma IdenticalFramesScoreInf(f: Frame, decibels: real -> real)
    requires |f| > 0
    ensures PairPsnr(f, f, decibels) == Inf
  {
    assert Congruent16(f, f);
  }

  /** ... but so do frames that differ: with 8-bit arithmetic, intensities 0
      and 16 give a wrapped squared error of 256 mod 256 = 0. */
  lemma DistinctFramesScoreInf(decibels: real -> real)
    ensures [0 as Byte] != [16 as Byte]
    ensures PairPsnr([0], [16], decibels) == Inf
  {
    assert Congruent16([0], [16]);
  }

  /** `psnr_video_quality` over a decoded video: the mean PSNR of
      consecutive frames. Fewer than two frames (an unopenable file
      included) give NaN and "Blur"; a single pair with `mse` zero makes the
      mean +inf and the video "Clear". */
  function PsnrQuality(video: DecodedVideo, decibels: real -> real, threshold: real): (a: Assessment)
    ensures |ReadFrames(video)| < 2 ==> a == Assessment(NaN, Blur)
    ensures a.score.Inf? <==> exists k :: 0 <= k < |ReadFrames(video)| - 1 &&
                                Congruent16(ReadFrames(video)[k], ReadFrames(video)[k + 1])
    ensures a.score.Inf? ==> a.quality == Clear
    ensures |ReadFrames(video)| >= 2 ==> !a.score.NaN?
    ensures a.quality == Clear <==> Exceeds(a.score, threshold)
    ensures a.score.Finite? ==> IsMeanOf(a.score.value, Values(PsnrValues(ReadFrames(video), decibels)))
  {
    var frames := ReadFrames(video);
    PsnrMean(frames, decibels);
    Assess(MeanScore(PsnrValues(frames, decibels)), threshold)
  }

  /** The mean of the pair PSNRs: NaN without a pair, never NaN with one,
      +inf exactly when some pair differs only by multiples of 16, and
      otherwise the arithmetic mean of the finite pair scores. */
  lemma PsnrMean(frames: seq<Frame>, decibels: real -> real)
    requires SameResolution(frames)
    ensures var m := MeanScore(PsnrValues(frames, decibels));
      && (|frames| < 2 ==> m == NaN)
      && (|frames| >= 2 ==> !m.NaN?)
      && (m.Inf? <==> exists k :: 0 <= k < |frames| - 1 && Congruent16(frames[k], frames[k + 1]))
      && (m.Finite? ==> IsMeanOf(m.value, Values(PsnrValues(frames, decibels))))
  {
    var scores := PsnrValues(frames, decibels);
    var m := MeanScore(scores);
    if exists k :: 0 <= k < |frames| - 1 && Congruent16(frames[k], frames[k + 1]) {
      var k :| 0 <= k < |frames| - 1 && Congruent16(frames[k], frames[k + 1]);
      assert scores[k].Inf?;
    }
    if m.Inf? {
      var i :| 0 <= i < |scores| && scores[i].Inf?;
      assert Congruent16(frames[i], frames[i + 1]);
    }
  }

  /** `psnr_values`: one PSNR per consecutive pair of frames of one size
      (frame k against frame k + 1, the pairing `ConsecutivePairs` derives
      from the `prev_frame` loop), never NaN, infinite exactly for the
      pairs whose pixel differences are all multiples of 16. */
  function PsnrValues(frames: seq<Frame>, decibels: real -> real): (scores: seq<Score>)
    requires SameResolution(frames)
    ensures |scores| == if frames == [] then 0 else |frames| - 1
    ensures forall k :: 0 <= k < |scores| ==> scores[k] == PairPsnr(frames[k], frames[k + 1], decibels)
    ensures forall k :: 0 <= k < |scores| ==> !scores[k].NaN?
    ensures forall k :: 0 <= k < |scores| ==> (scores[k].Inf? <==> Congruent16(frames[k], frames[k + 1]))
  {
    var n := if frames == [] then 0 else |frames| - 1;
    seq(n, k requires 0 <= k < n => PairPsnr(frames[k], frames[k + 1], decibels))
  }


  /** The PSNR scores follow the `prev_frame` loop: one per pair that
      `ConsecutivePairs` compares, each that pair's PSNR. */
  lemma PsnrValuesFollowPairs(frames: seq<Frame>, decibels: real -> real)
    requires SameResolution(frames)
    ensures |PsnrValues(frames, decibels)| == |ConsecutivePairs(frames)|
    ensures forall k :: 0 <= k < |ConsecutivePairs(frames)| ==>
      var pair := ConsecutivePairs(frames)[k];
      0 < |pair.0| == |pair.1| && PsnrValues(frames, decibels)[k] == PairPsnr(pair.0, pair.1, decibels)
  {
  }

  /** A still video of at least two frames is +inf and "Clear" by PSNR,
      whatever the threshold. */
  lemma PsnrStillVideo(f: Frame, n: nat, decibels: real -> real, threshold: real)
    requires n >= 2 && |f| > 0
    ensures SameResolution(seq(n, _ => f))
    ensures PsnrQuality(Opened(seq(n, _ => f)), decibels, threshold) == Assessment(Inf, Clear)
  {
    var frames := seq(n, _ => f);
    assert Congruent16(frames[0], frames[1]);
  }
}
