/** The render side: the two lookup tables (their entries are left opaque),
    the frame layout of one render cycle, and the render loop's reaction to
    the outcome of a non-blocking send. Floating-point values are modelled
    as reals. */
module Visualizer {
  import opened Apa102

  /** The largest `usize` on a 64-bit target. */
  const UsizeMax: nat := 0xFFFF_FFFF_FFFF_FFFF

  /** Rust's `x as usize` on a float: truncation toward zero, with negative
      values saturating to 0 and values past the range to `usize::MAX`. */
  function AsUsize(x: real): (r: nat)
    ensures r <= UsizeMax
    ensures x <= 0.0 ==> r == 0
    ensures 0.0 <= x < UsizeMax as real ==> r as real <= x < r as real + 1.0
    ensures x >= UsizeMax as real ==> r == UsizeMax
  {
    if x <= 0.0 then 0
    else if x >= UsizeMax as real then UsizeMax
    else x.Floor
  }

  lemma AsUsizeMonotone(x: real, y: real)
    requires x <= y
    ensures AsUsize(x) <= AsUsize(y)
  {
    if 0.0 < x && y < UsizeMax as real {
      assert x.Floor as real <= x <= y < y.Floor as real + 1.0;
    }
  }

  // ---------------------------------------------------------------------
  // Sigmoid table

  const SigmoidSize: nat := 2048
  const SigmoidRange: real := 10.0
  /** `SIZE / (2 * RANGE)`. */
  const SigmoidScale: real := 102.4

  /** The logistic table: 2048 samples whose values are left opaque. */
  datatype Sigmoid = Sigmoid(lut: seq<real>)
  {
    predicate Valid()
    {
      |lut| == SigmoidSize
    }
  }

  /** The point of the domain at which sample `i` of the table is taken:
      `(i - SIZE/2) / (SIZE/2) * RANGE`. */
  function SampleX(i: int): real
  {
    (i - SigmoidSize / 2) as real / (SigmoidSize / 2) as real * SigmoidRange
  }

  /** The table index `Sigmoid::f` reads: clamp, then truncate
      `x * SCALE` and shift it by `SIZE / 2`. */
  function SampleIndex(x: real): (i: nat)
    ensures i < SigmoidSize
    ensures x >= SigmoidRange ==> i == SigmoidSize - 1
    ensures x <= -SigmoidRange ==> i == 0
    ensures -SigmoidRange < x < 0.0 ==> i == SigmoidSize / 2
    ensures 0.0 <= x < SigmoidRange ==> SampleX(i) <= x < SampleX(i + 1)
  {
    if x >= SigmoidRange then SigmoidSize - 1
    else if x <= -SigmoidRange then 0
    else
      var i := AsUsize(x * SigmoidScale) + SigmoidSize / 2;
      assert 0.0 <= x ==> SampleX(i) == (i - 1024) as real / 102.4 && SampleX(i + 1) == (i - 1023) as real / 102.4;
      i
  }

  /** `Sigmoid::f`. */
  function F(s: Sigmoid, x: real): (r: real)
    requires s.Valid()
    ensures x >= SigmoidRange ==> r == s.lut[SigmoidSize - 1]
    ensures x <= -SigmoidRange ==> r == s.lut[0]
    ensures -SigmoidRange < x < 0.0 ==> r == s.lut[SigmoidSize / 2]
  {
    s.lut[SampleIndex(x)]
  }

  /** The index read never decreases as `x` grows. */
  lemma SampleIndexMonotone(x: real, y: real)
    requires x <= y
    ensures SampleIndex(x) <= SampleIndex(y)
  {
    if -SigmoidRange < x && y < SigmoidRange {
      AsUsizeMonotone(x * SigmoidScale, y * SigmoidScale);
    }
  }

  /** With a non-decreasing table, `f` is non-decreasing. */
  lemma FMonotone(s: Sigmoid, x: real, y: real)
    requires s.Valid()
    requires forall i, j :: 0 <= i <= j < SigmoidSize ==> s.lut[i] <= s.lut[j]
    requires x <= y
    ensures F(s, x) <= F(s, y)
  {
    SampleIndexMonotone(x, y);
  }

  /** Every input in (-10, 0) reads the sample taken at 0, which lies above
      the input: for negative inputs the read is not the nearest sample
      below, and `f` is flat there. */
  lemma NegativeInputsReadMidpoint(s: Sigmoid, x: real)
    requires s.Valid()
    requires -SigmoidRange < x < 0.0
    ensures SampleX(SampleIndex(x)) == 0.0 > x
    ensures F(s, x) == F(s, 0.0)
  {
  }

  /** Sample `n + SIZE/2` is taken at `n / SCALE`. */
  lemma SampleXShift(n: int)
    ensures SampleX(n + SigmoidSize / 2) == n as real / SigmoidScale
  {
    assert SampleX(n + SigmoidSize / 2) == n as real / 1024.0 * 10.0;
  }

  /** The index a truncating lookup evidently aims at: `floor(x * SCALE)`
      shifted by `SIZE / 2`, so that every input in (-10, 10) reads the
      sample at or just below it, negative inputs included. */
  function FlooredSampleIndex(x: real): (i: nat)
    ensures i < SigmoidSize
    ensures x >= SigmoidRange ==> i == SigmoidSize - 1
    ensures x <= -SigmoidRange ==> i == 0
    ensures -SigmoidRange < x < SigmoidRange ==> SampleX(i) <= x < SampleX(i + 1)
    ensures 0.0 <= x ==> i == SampleIndex(x)
  {
    if x >= SigmoidRange then SigmoidSize - 1
    else if x <= -SigmoidRange then 0
    else
      var n := (x * SigmoidScale).Floor;
      assert -1024 <= n < 1024;
      var i := n + SigmoidSize / 2;
      SampleXShift(n);
      SampleXShift(n + 1);
      i
  }

  /** At x = -5, the sample point of index 512, the lookup as written reads
      index 1024 (the sample at 0) where the floored index reads 512. */
  lemma NegativeSampleMisread()
    ensures SampleIndex(-5.0) == 1024 && SampleX(1024) == 0.0
    ensures FlooredSampleIndex(-5.0) == 512 && SampleX(512) == -5.0
  {
  }

  // ---------------------------------------------------------------------
  // Colour table

  const Hues: nat := 360
  const Values: nat := 256

  /** The 360 x 256 table of colour triples; the entries are left opaque. */
  datatype Clut = Clut(lut: seq<seq<(real, real, real)>>)
  {
    predicate Valid()
    {
      |lut| == Hues && forall h :: 0 <= h < Hues ==> |lut[h]| == Values
    }
  }

  /** Row of the table: `(h * HUES) as usize % HUES`. */
  function HueIndex(h: real): (i: nat)
    ensures i < Hues
    ensures h <= 0.0 ==> i == 0
    ensures 0.0 <= h < 1.0 ==> i as real <= h * Hues as real < i as real + 1.0
  {
    AsUsize(h * Hues as real) % Hues
  }

  /** Column of the table: `(v * VALUES) as usize`, clamped to `VALUES - 1`. */
  function ValueIndex(v: real): (j: nat)
    ensures j < Values
    ensures v >= 1.0 ==> j == Values - 1
    ensures v < 1.0 / Values as real ==> j == 0
    ensures 0.0 <= v < 1.0 ==> j as real <= v * Values as real < j as real + 1.0
  {
    var j := AsUsize(v * Values as real);
    var j := if j < Values - 1 then j else Values - 1;
    if j > 0 then j else 0
  }

  /** `Clut::lookup`. */
  function Lookup(c: Clut, h: real, v: real): (rgb: (real, real, real))
    requires c.Valid()
    ensures v >= 1.0 ==> rgb == c.lut[HueIndex(h)][Values - 1]
    ensures v < 0.0 ==> rgb == c.lut[HueIndex(h)][0]
    ensures h <= 0.0 ==> rgb == c.lut[0][ValueIndex(v)]
  {
    c.lut[HueIndex(h)][ValueIndex(v)]
  }

  /** Adding one full turn to a non-negative hue selects the same row, as
      long as the scaled hue stays below the saturation point. */
  lemma HueOneTurn(h: real)
    requires 0.0 <= h
    requires (h + 1.0) * Hues as real < UsizeMax as real
    ensures HueIndex(h + 1.0) == HueIndex(h)
  {
    var a := h * Hues as real;
    assert (h + 1.0) * Hues as real == a + 360.0;
    assert (a + 360.0).Floor == a.Floor + 360;
  }

  /** Negative hues are not reduced to one turn; they all select row 0,
      while the turn they are equivalent to selects another row. */
  lemma NegativeHueSelectsRowZero()
    ensures HueIndex(-0.25) == 0
    ensures HueIndex(0.75) == 270
  {
  }

  /** The row a hue evidently aims at: the scaled hue floored and reduced
      to one turn, so negative hues wrap instead of saturating. It agrees
      with `HueIndex` wherever the cast neither saturates nor clamps. */
  function WrappedHueIndex(h: real): (i: nat)
    ensures i < Hues
    ensures 0.0 <= h * Hues as real < UsizeMax as real ==> i == HueIndex(h)
  {
    (h * Hues as real).Floor % Hues
  }

  /** Adding one full turn selects the same wrapped row, for every hue. */
  lemma WrappedHueOneTurn(h: real)
    ensures WrappedHueIndex(h + 1.0) == WrappedHueIndex(h)
  {
    var a := h * Hues as real;
    assert (h + 1.0) * Hues as real == a + 360.0;
    var n := a.Floor;
    assert (a + 360.0).Floor == n + 360;
    TurnMod(n);
  }

  lemma TurnMod(n: int)
    ensures (n + 360) % 360 == n % 360
  {
    var q, r := n / 360, n % 360;
    assert n + 360 == (q + 1) * 360 + r;
  }

  /** The hue -0.25 is the turn 0.75: the wrapped row is 270 for both,
      where `HueIndex` gives row 0 for the negative one. */
  lemma NegativeHueWraps()
    ensures WrappedHueIndex(-0.25) == 270 && WrappedHueIndex(0.75) == 270
    ensures HueIndex(-0.25) == 0 && HueIndex(0.75) == 270
  {
  }

  /** Hues whose scaled value saturates the cast all select row 15,
      `usize::MAX % 360`. */
  lemma SaturatedHue(h: real)
    requires h * Hues as real >= UsizeMax as real
    ensures HueIndex(h) == 15
  {
  }

  // ---------------------------------------------------------------------
  // Frame layout

  /** Frame position of spatial index `i` in bin `j`. */
  function Slot(i: nat, j: nat, length: nat): nat
  {
    j * length + i
  }

  lemma SlotInRange(i: nat, j: nat, length: nat, width: nat)
    requires i < length && j < width
    ensures Slot(i, j, length) < length * width
  {
    assert Slot(i, j, length) < (j + 1) * length;
    MulLeft(j + 1, width, length);
  }

  lemma MulLeft(a: nat, b: nat, c: nat)
    requires a <= b
    ensures a * c <= b * c
  {
  }

  /** Distinct (position, bin) pairs have distinct slots. */
  lemma SlotsDiffer(i1: nat, j1: nat, i2: nat, j2: nat, length: nat)
    requires i1 < length && i2 < length
    requires i1 != i2 || j1 != j2
    ensures Slot(i1, j1, length) != Slot(i2, j2, length)
  {
    if j1 < j2 {
      MulLeft(j1 + 1, j2, length);
    } else if j2 < j1 {
      MulLeft(j2 + 1, j1, length);
    }
  }

  /** Every (position, bin) pair has a slot inside the frame. */
  lemma SlotsInRange(length: nat, width: nat)
    ensures forall i: nat, j: nat :: i < length && j < width ==> Slot(i, j, length) < length * width
  {
    forall i: nat, j: nat | i < length && j < width
      ensures Slot(i, j, length) < length * width
    {
      SlotInRange(i, j, length, width);
    }
  }

  /** Every slot of the frame belongs to some (position, bin) pair. */
  lemma SlotCovers(k: nat, length: nat, width: nat)
    requires k < length * width
    ensures length > 0
    ensures k % length < length && k / length < width
    ensures Slot(k % length, k / length, length) == k
  {
    assert length > 0;
  }

  /** What one render cycle reads: a scale and an energy per bin, and an
      amplitude per bin for each spatial position. */
  predicate FeaturesCover(length: nat, width: nat, scales: seq<real>, energy: seq<real>, amps: seq<seq<real>>)
  {
    width <= |scales| && width <= |energy| && length <= |amps| &&
    forall i :: 0 <= i < length ==> width <= |amps[i]|
  }

  /** The colour of position `i` in bin `j`: `get_hsv` of the re-centred
      amplitude, the bin's energy and the position's phase. */
  function Pixel(hsv: (real, real, real) -> ARGB8, scales: seq<real>, energy: seq<real>, amps: seq<seq<real>>,
                 ws: real, length: nat, width: nat, i: nat, j: nat): ARGB8
    requires FeaturesCover(length, width, scales, energy, amps)
    requires i < length && j < width
  {
    hsv(scales[j] * (amps[i][j] - 1.0), energy[j], ws * i as real)
  }

  /** `Visualizer::visualize`: one frame of `length * width` pixels, built
      column by column. `hsv` stands for `get_hsv` with the fixed parameter
      record and `ws` for the phase step `2 * pi / length`. */
  method Visualize(length: nat, width: nat, scales: seq<real>, energy: seq<real>, amps: seq<seq<real>>,
                   ws: real, hsv: (real, real, real) -> ARGB8) returns (frame: seq<ARGB8>)
    requires FeaturesCover(length, width, scales, energy, amps)
    ensures |frame| == length * width
    ensures forall i: nat, j: nat :: i < length && j < width ==> Slot(i, j, length) < |frame|
    ensures forall i: nat, j: nat :: i < length && j < width ==>
      frame[Slot(i, j, length)] == Pixel(hsv, scales, energy, amps, ws, length, width, i, j)
  {
    frame := seq(length * width, _ => ARGB8(0, 0, 0, 0));
    SlotsInRange(length, width);
    for i := 0 to length
      invariant |frame| == length * width
      invariant forall i', j' :: 0 <= i' < i && 0 <= j' < width ==>
        frame[Slot(i', j', length)] == Pixel(hsv, scales, energy, amps, ws, length, width, i', j')
    {
      var amp := amps[i];
      var phi := ws * i as real;
      for j := 0 to width
        invariant |frame| == length * width
        invariant forall i', j' :: 0 <= i' < i && 0 <= j' < width ==>
          frame[Slot(i', j', length)] == Pixel(hsv, scales, energy, amps, ws, length, width, i', j')
        invariant forall j' :: 0 <= j' < j ==>
          frame[Slot(i, j', length)] == Pixel(hsv, scales, energy, amps, ws, length, width, i, j')
      {
        SlotInRange(i, j, length, width);
        var val := scales[j] * (amp[j] - 1.0);
        assert val == scales[j] * (amps[i][j] - 1.0) && phi == ws * i as real;
        var c := hsv(val, energy[j], phi);
        assert c == Pixel(hsv, scales, energy, amps, ws, length, width, i, j);
        ghost var before := frame;
        frame := frame[j * length + i := c];
        forall i', j' | 0 <= i' <= i && 0 <= j' < width && (i' < i || j' < j)
          ensures frame[Slot(i', j', length)] == before[Slot(i', j', length)]
        {
          SlotsDiffer(i', j', i, j, length);
        }
      }
    }
  }

  /** A frame with the colour of every (position, bin) pair in its slot has
      no other pixel: each of its positions holds the colour of the pair
      `(k % length, k / length)`. */
  lemma FrameCovered(frame: seq<ARGB8>, length: nat, width: nat, scales: seq<real>, energy: seq<real>,
                     amps: seq<seq<real>>, ws: real, hsv: (real, real, real) -> ARGB8, k: nat)
    requires FeaturesCover(length, width, scales, energy, amps)
    requires |frame| == length * width
    requires forall i: nat, j: nat :: i < length && j < width ==>
      Slot(i, j, length) < |frame| &&
      frame[Slot(i, j, length)] == Pixel(hsv, scales, energy, amps, ws, length, width, i, j)
    requires k < |frame|
    ensures length > 0
    ensures k % length < length && k / length < width
    ensures frame[k] == Pixel(hsv, scales, energy, amps, ws, length, width, k % length, k / length)
  {
    SlotCovers(k, length, width);
  }

  // ---------------------------------------------------------------------
  // Render loop

  /** Why a non-blocking send failed. */
  datatype TrySendError = Full | Disconnected

  /** The outcome of offering one rendered frame to the output stage. */
  datatype TrySendResult = Sent | Failed(error: TrySendError)

  datatype Control = Continue | Stop

  /** A full channel drops the frame and rendering goes on; any other send
      error ends the render loop. */
  function OnSendError(e: TrySendError): (c: Control)
    ensures c == Continue <==> e == Full
  {
    match e
    case Full => Continue
    case Disconnected => Stop
  }

  /** No send before frame `k` reported a disconnected receiver. */
  predicate Reaches(results: seq<TrySendResult>, k: nat)
    requires k <= |results|
  {
    forall m :: 0 <= m < k ==> results[m] != Failed(Disconnected)
  }

  /** The render loop of `Visualizer::run`, with one send outcome per
      received feature set: frame `k` is rendered exactly when no earlier
      send found the receiver gone, it is delivered exactly when it was
      rendered and its send succeeded, and delivered frames keep their
      order without repetition. */
  method RenderLoop(results: seq<TrySendResult>) returns (delivered: seq<nat>, rendered: nat)
    ensures rendered <= |results|
    ensures forall k :: 0 <= k < |results| ==> (k < rendered <==> Reaches(results, k))
    ensures forall k: nat :: k in delivered <==> k < rendered && results[k] == Sent
    ensures forall a, b :: 0 <= a < b < |delivered| ==> delivered[a] < delivered[b]
  {
    delivered, rendered := [], 0;
    while rendered < |results|
      invariant rendered <= |results|
      invariant Reaches(results, rendered)
      invariant forall k: nat :: k in delivered <==> k < rendered && results[k] == Sent
      invariant forall a, b :: 0 <= a < b < |delivered| ==> delivered[a] < delivered[b]
      invariant forall a :: 0 <= a < |delivered| ==> delivered[a] < rendered
    {
      var k := rendered;
      rendered := rendered + 1;
      match results[k]
      case Sent =>
        delivered := delivered + [k];
      case Failed(e) =>
        if OnSendError(e) == Stop {
          break;
        }
    }
  }
}
