/** Remapping of a logical frame (strip after strip, `stripLength` pixels
    each) into the order in which the physical strips are wired: logical
    strip `x` takes physical segment `xMap[x]`, reversed when `reversed[x]`. */
module StripTransform {
  import opened Apa102
  import opened SeqUtil

  type U8 = n: nat | n < 256
  type U16 = n: nat | n < 65536

  datatype Option<T> = None | Some(value: T)

  datatype Transform = Transform(numStrips: U8, stripLength: U16, reversed: seq<bool>, xMap: seq<nat>)
  {
    /** One reversal flag and one physical index per strip. */
    predicate Valid()
    {
      |reversed| == numStrips && |xMap| == numStrips
    }

    /** Every physical segment named by `xMap` lies inside a frame of `size` pixels. */
    predicate Fits(size: nat)
      requires Valid()
    {
      forall x :: 0 <= x < numStrips ==> Offset(stripLength, xMap[x]) + stripLength <= size
    }
  }

  /** Construction fails (the source panics) unless both vectors have one
      entry per strip. */
  function New(numStrips: U8, stripLength: U16, reversed: seq<bool>, xMap: seq<nat>): (r: Option<Transform>)
    ensures r.Some? <==> |reversed| == numStrips && |xMap| == numStrips
    ensures r.Some? ==> r.value.Valid()
    ensures r.Some? ==> r.value.numStrips == numStrips && r.value.stripLength == stripLength
    ensures r.Some? ==> r.value.reversed == reversed && r.value.xMap == xMap
  {
    if |reversed| != numStrips || |xMap| != numStrips then None
    else Some(Transform(numStrips, stripLength, reversed, xMap))
  }

  /** Physical segment `p` of the frame. */
  function Segment(frame: seq<ARGB8>, l: nat, p: nat): (s: seq<ARGB8>)
    requires Offset(l, p) + l <= |frame|
    ensures |s| == l
  {
    frame[Offset(l, p) .. Offset(l, p) + l]
  }

  function Orient(s: seq<ARGB8>, rev: bool): seq<ARGB8>
  {
    if rev then Reverse(s) else s
  }

  /** Pixel `k` of physical segment `p`, read forwards or backwards. */
  lemma OrientedSegmentAt(frame: seq<ARGB8>, l: nat, p: nat, rev: bool, k: nat)
    requires Offset(l, p) + l <= |frame| && k < l
    ensures |Orient(Segment(frame, l, p), rev)| == l
    ensures Orient(Segment(frame, l, p), rev)[k] == frame[Offset(l, p) + (if rev then l - 1 - k else k)]
  {
    ReverseLength(Segment(frame, l, p));
    if rev {
      ReverseAt(Segment(frame, l, p), k);
    }
  }

  /** The output pieces, one per logical strip, before concatenation. */
  function Pieces(t: Transform, frame: seq<ARGB8>): seq<seq<ARGB8>>
    requires t.Valid() && t.Fits(|frame|)
  {
    seq(t.numStrips, x requires 0 <= x < t.numStrips =>
      Orient(Segment(frame, t.stripLength, t.xMap[x]), t.reversed[x]))
  }

  lemma PiecesLength(t: Transform, frame: seq<ARGB8>)
    requires t.Valid() && t.Fits(|frame|)
    ensures forall x :: 0 <= x < |Pieces(t, frame)| ==> |Pieces(t, frame)[x]| == t.stripLength
  {
    forall x | 0 <= x < t.numStrips
      ensures |Pieces(t, frame)[x]| == t.stripLength
    {
      ReverseLength(Segment(frame, t.stripLength, t.xMap[x]));
    }
  }

  /** `Transform::apply`: the pieces concatenated in logical order. The
      output holds `numStrips * stripLength` pixels. */
  function Apply(t: Transform, frame: seq<ARGB8>): (r: seq<ARGB8>)
    requires t.Valid() && t.Fits(|frame|)
    ensures |r| == t.numStrips * t.stripLength
  {
    PiecesLength(t, frame);
    FlattenLength(Pieces(t, frame), t.stripLength);
    Flatten(Pieces(t, frame))
  }

  /** Output pixel `k` of logical strip `x` is pixel `k` of physical segment
      `xMap[x]`, counted from the far end when the strip is reversed. */
  lemma ApplyAt(t: Transform, frame: seq<ARGB8>, x: nat, k: nat)
    requires t.Valid() && t.Fits(|frame|)
    requires x < t.numStrips && k < t.stripLength
    ensures Offset(t.stripLength, x) + k < |Apply(t, frame)|
    ensures Offset(t.stripLength, t.xMap[x]) + t.stripLength <= |frame|
    ensures Apply(t, frame)[Offset(t.stripLength, x) + k] ==
      frame[Offset(t.stripLength, t.xMap[x]) + (if t.reversed[x] then t.stripLength - 1 - k else k)]
  {
    var ps := Pieces(t, frame);
    PiecesLength(t, frame);
    assert |ps| == t.numStrips;
    FlattenAt(ps, t.stripLength, x, k);
    assert ps[x] == Orient(Segment(frame, t.stripLength, t.xMap[x]), t.reversed[x]);
    OrientedSegmentAt(frame, t.stripLength, t.xMap[x], t.reversed[x], k);
  }

  lemma ApplyAtPiece(t: Transform, frame: seq<ARGB8>, x: nat, k: nat)
    requires t.Valid() && t.Fits(|frame|)
    requires x < t.numStrips && k < t.stripLength
    ensures Offset(t.stripLength, x) + k < |Apply(t, frame)|
    ensures |Orient(Segment(frame, t.stripLength, t.xMap[x]), t.reversed[x])| == t.stripLength
    ensures Apply(t, frame)[Offset(t.stripLength, x) + k] ==
      Orient(Segment(frame, t.stripLength, t.xMap[x]), t.reversed[x])[k]
  {
    ApplyAt(t, frame, x, k);
    OrientedSegmentAt(frame, t.stripLength, t.xMap[x], t.reversed[x], k);
  }

  /** Output segment `x` is input segment `xMap[x]`, reversed exactly when
      `reversed[x]` is set. */
  lemma ApplySegment(t: Transform, frame: seq<ARGB8>, x: nat)
    requires t.Valid() && t.Fits(|frame|)
    requires x < t.numStrips
    ensures Offset(t.stripLength, x) + t.stripLength <= |Apply(t, frame)|
    ensures Apply(t, frame)[Offset(t.stripLength, x) .. Offset(t.stripLength, x) + t.stripLength] ==
      Orient(Segment(frame, t.stripLength, t.xMap[x]), t.reversed[x])
  {
    var l := t.stripLength;
    var out := Apply(t, frame);
    var piece := Orient(Segment(frame, l, t.xMap[x]), t.reversed[x]);
    SegmentBound(l, x, t.numStrips);
    ReverseLength(Segment(frame, l, t.xMap[x]));
    forall k | 0 <= k < l
      ensures out[Offset(l, x) + k] == piece[k]
    {
      ApplyAtPiece(t, frame, x, k);
    }
    SliceEq(out, Offset(l, x), piece);
  }

  /** Every segment index in `ps` names a segment inside a frame of `size` pixels. */
  predicate SegmentsFit(size: nat, l: nat, ps: seq<nat>)
  {
    forall i :: 0 <= i < |ps| ==> Offset(l, ps[i]) + l <= size
  }

  /** The segments of `frame` with the given physical indices, in order. */
  function Segments(frame: seq<ARGB8>, l: nat, ps: seq<nat>): seq<seq<ARGB8>>
    requires SegmentsFit(|frame|, l, ps)
  {
    seq(|ps|, i requires 0 <= i < |ps| => Segment(frame, l, ps[i]))
  }

  lemma SegmentsRemove(frame: seq<ARGB8>, l: nat, qs: seq<nat>, k: nat)
    requires SegmentsFit(|frame|, l, qs) && k < |qs|
    ensures SegmentsFit(|frame|, l, qs[..k] + qs[k + 1..])
    ensures multiset(Segments(frame, l, qs)) ==
      multiset(Segments(frame, l, qs[..k] + qs[k + 1..])) + multiset{Segment(frame, l, qs[k])}
  {
    var rest := qs[..k] + qs[k + 1..];
    assert forall i :: 0 <= i < |rest| ==> rest[i] == if i < k then qs[i] else qs[i + 1];
    var sq := Segments(frame, l, qs);
    MultisetRemove(sq, k);
    assert sq[..k] + sq[k + 1..] == Segments(frame, l, rest);
  }

  lemma SegmentsHead(frame: seq<ARGB8>, l: nat, ps: seq<nat>)
    requires SegmentsFit(|frame|, l, ps) && ps != []
    ensures SegmentsFit(|frame|, l, ps[1..])
    ensures multiset(Segments(frame, l, ps)) ==
      multiset(Segments(frame, l, ps[1..])) + multiset{Segment(frame, l, ps[0])}
  {
    assert Segments(frame, l, ps) == [Segment(frame, l, ps[0])] + Segments(frame, l, ps[1..]);
  }

  /** Taking the same segments in another order gives the same segments. */
  lemma {:induction false} SegmentsReorder(frame: seq<ARGB8>, l: nat, ps: seq<nat>, qs: seq<nat>)
    requires SegmentsFit(|frame|, l, ps) && SegmentsFit(|frame|, l, qs)
    requires multiset(ps) == multiset(qs)
    ensures multiset(Segments(frame, l, ps)) == multiset(Segments(frame, l, qs))
    decreases |ps|
  {
    if ps == [] {
      assert |qs| == |multiset(qs)| == 0;
    } else {
      var k := MatchHead(ps, qs);
      SegmentsRemove(frame, l, qs, k);
      SegmentsHead(frame, l, ps);
      SegmentsReorder(frame, l, ps[1..], qs[..k] + qs[k + 1..]);
    }
  }

  /** The segments 0 .. n-1 all lie inside a frame of at least `l * n` pixels. */
  lemma RangeFits(size: nat, l: nat, n: nat)
    requires Offset(l, n) <= size
    ensures SegmentsFit(size, l, Range(n))
  {
    forall i | 0 <= i < n
      ensures Offset(l, Range(n)[i]) + l <= size
    {
      SegmentBound(l, i, n);
    }
  }

  lemma SegmentsSnoc(frame: seq<ARGB8>, l: nat, n: nat)
    requires n > 0 && Offset(l, n) <= |frame|
    ensures Offset(l, n - 1) + l == Offset(l, n)
    ensures SegmentsFit(|frame|, l, Range(n)) && SegmentsFit(|frame|, l, Range(n - 1))
    ensures Segments(frame, l, Range(n)) == Segments(frame, l, Range(n - 1)) + [Segment(frame, l, n - 1)]
  {
    assert l * (n - 1) + l == l * n;
    RangeFits(|frame|, l, n);
    RangeFits(|frame|, l, n - 1);
  }

  /** The first `n` segments in order make up the first `l * n` pixels. */
  lemma {:induction false} FlattenConsecutive(frame: seq<ARGB8>, l: nat, n: nat)
    requires Offset(l, n) <= |frame|
    ensures SegmentsFit(|frame|, l, Range(n))
    ensures Flatten(Segments(frame, l, Range(n))) == frame[..Offset(l, n)]
  {
    RangeFits(|frame|, l, n);
    if n > 0 {
      SegmentsSnoc(frame, l, n);
      FlattenConsecutive(frame, l, n - 1);
      var seg := Segment(frame, l, n - 1);
      FlattenAppend(Segments(frame, l, Range(n - 1)), [seg]);
      FlattenSingle(seg);
      assert frame[..Offset(l, n)] == frame[..Offset(l, n - 1)] + seg;
    }
  }

  /** With the identity map and no reversed strip, `apply` returns the first
      `numStrips * stripLength` input pixels unchanged. */
  lemma ApplyIdentity(t: Transform, frame: seq<ARGB8>)
    requires t.Valid()
    requires t.xMap == Range(t.numStrips)
    requires forall x :: 0 <= x < t.numStrips ==> !t.reversed[x]
    requires t.numStrips * t.stripLength <= |frame|
    ensures t.Fits(|frame|)
    ensures Apply(t, frame) == frame[..t.numStrips * t.stripLength]
  {
    var l, n := t.stripLength, t.numStrips;
    assert Offset(l, n) == n * l;
    FlattenConsecutive(frame, l, n);
    assert Pieces(t, frame) == Segments(frame, l, Range(n));
  }

  /** When `xMap` is a permutation of the strips and the frame holds exactly
      `numStrips` segments, the output is a permutation of the input. */
  lemma ApplyPermutes(t: Transform, frame: seq<ARGB8>)
    requires t.Valid()
    requires IsPermutation(t.xMap, t.numStrips)
    requires |frame| == t.numStrips * t.stripLength
    ensures t.Fits(|frame|)
    ensures multiset(Apply(t, frame)) == multiset(frame)
  {
    var l, n := t.stripLength, t.numStrips;
    PermutationBounded(t.xMap, n);
    forall x | 0 <= x < n
      ensures Offset(l, t.xMap[x]) + l <= |frame|
    {
      SegmentBound(l, t.xMap[x], n);
    }
    var pieces := Pieces(t, frame);
    var plain := Segments(frame, l, t.xMap);
    forall x | 0 <= x < n
      ensures multiset(pieces[x]) == multiset(plain[x])
    {
      ReverseMultiset(Segment(frame, l, t.xMap[x]));
    }
    FlattenMultisetPointwise(pieces, plain);
    assert Offset(l, n) == n * l;
    FlattenConsecutive(frame, l, n);
    SegmentsReorder(frame, l, t.xMap, Range(n));
    FlattenMultisetReorder(plain, Segments(frame, l, Range(n)));
    assert frame[..Offset(l, n)] == frame;
  }

  /** Both coordinates of a point write are inside the strip layout. */
  predicate Addressable(t: Transform, x: nat, y: nat)
  {
    x < t.numStrips && y < t.stripLength
  }

  /** The frame index `write_pixel` writes, exactly as the source computes it:
      `l * xMap[x] + (if reversed[x] then l - y else y)`. It lies in physical
      segment `xMap[x]` or on the first pixel after it, and it leaves the
      segment exactly for `y = 0` on a reversed strip. */
  function PixelIndex(t: Transform, x: nat, y: nat): (i: nat)
    requires t.Valid() && Addressable(t, x, y)
    ensures Offset(t.stripLength, t.xMap[x]) <= i <= Offset(t.stripLength, t.xMap[x]) + t.stripLength
    ensures i == Offset(t.stripLength, t.xMap[x]) + t.stripLength <==> t.reversed[x] && y == 0
  {
    Offset(t.stripLength, t.xMap[x]) + if t.reversed[x] then t.stripLength - y else y
  }

  /** How a point write ends: both failures are panics in the source. */
  datatype WriteOutcome = Written | InvalidAddress | IndexOutOfBounds

  /** `write_pixel`: checks the address, then stores `color` at one index of
      the caller's frame. */
  method WritePixel(t: Transform, frame: array<ARGB8>, x: nat, y: nat, color: ARGB8) returns (outcome: WriteOutcome)
    requires t.Valid()
    modifies frame
    ensures outcome == InvalidAddress <==> !Addressable(t, x, y)
    ensures outcome == Written <==> Addressable(t, x, y) && PixelIndex(t, x, y) < frame.Length
    ensures outcome == Written ==> frame[..] == old(frame[..])[PixelIndex(t, x, y) := color]
    ensures outcome != Written ==> frame[..] == old(frame[..])
  {
    var l := t.stripLength;
    if t.numStrips == 0 || l == 0 || x > t.numStrips - 1 || y > l - 1 {
      return InvalidAddress;
    }
    var phys, rev := t.xMap[x], t.reversed[x];
    var idx := Offset(l, phys) + if rev then l - y else y;
    if idx >= frame.Length {
      return IndexOutOfBounds;
    }
    frame[idx] := color;
    outcome := Written;
  }

  /** On a strip that is not reversed, a point write followed by `apply`
      shows the colour at output position `Offset(l, x) + y`. */
  lemma WriteThenApplyForward(t: Transform, frame: seq<ARGB8>, x: nat, y: nat, c: ARGB8)
    requires t.Valid() && t.Fits(|frame|)
    requires Addressable(t, x, y) && !t.reversed[x]
    ensures PixelIndex(t, x, y) < |frame|
    ensures t.Fits(|frame[PixelIndex(t, x, y) := c]|)
    ensures Offset(t.stripLength, x) + y < |Apply(t, frame[PixelIndex(t, x, y) := c])|
    ensures Apply(t, frame[PixelIndex(t, x, y) := c])[Offset(t.stripLength, x) + y] == c
  {
    ApplyAt(t, frame[PixelIndex(t, x, y) := c], x, y);
  }

  /** On a reversed strip, a point write with `y >= 1` shows up one output
      position early, at `Offset(l, x) + (y - 1)`. */
  lemma WriteThenApplyReversed(t: Transform, frame: seq<ARGB8>, x: nat, y: nat, c: ARGB8)
    requires t.Valid() && t.Fits(|frame|)
    requires Addressable(t, x, y) && t.reversed[x] && 1 <= y
    ensures PixelIndex(t, x, y) < |frame|
    ensures t.Fits(|frame[PixelIndex(t, x, y) := c]|)
    ensures Offset(t.stripLength, x) + (y - 1) < |Apply(t, frame[PixelIndex(t, x, y) := c])|
    ensures Apply(t, frame[PixelIndex(t, x, y) := c])[Offset(t.stripLength, x) + (y - 1)] == c
  {
    ApplyAt(t, frame, x, y);
    var written := frame[PixelIndex(t, x, y) := c];
    assert |written| == |frame|;
    ApplyAt(t, written, x, y - 1);
  }

  /** The same write leaves the output pixel at `Offset(l, x) + y`, where the
      colour was meant to go, as it was. */
  lemma WriteThenApplyReversedMisses(t: Transform, frame: seq<ARGB8>, x: nat, y: nat, c: ARGB8)
    requires t.Valid() && t.Fits(|frame|)
    requires Addressable(t, x, y) && t.reversed[x] && 1 <= y
    ensures PixelIndex(t, x, y) < |frame|
    ensures t.Fits(|frame[PixelIndex(t, x, y) := c]|)
    ensures Offset(t.stripLength, x) + y < |Apply(t, frame)|
    ensures Offset(t.stripLength, x) + y < |Apply(t, frame[PixelIndex(t, x, y) := c])|
    ensures Apply(t, frame[PixelIndex(t, x, y) := c])[Offset(t.stripLength, x) + y] == Apply(t, frame)[Offset(t.stripLength, x) + y]
  {
    ApplyAt(t, frame, x, y);
    var written := frame[PixelIndex(t, x, y) := c];
    assert |written| == |frame|;
    ApplyAt(t, written, x, y);
  }

  /** On a reversed strip, a point write with `y == 0` lands on the first
      pixel of the next physical segment. */
  lemma WriteReversedAtZero(t: Transform, x: nat)
    requires t.Valid() && Addressable(t, x, 0) && t.reversed[x]
    ensures PixelIndex(t, x, 0) == Offset(t.stripLength, t.xMap[x]) + t.stripLength
  {
  }

  /** The index `write_pixel` evidently aims at: the one `apply` reads
      output pixel `y` of strip `x` from, `l * xMap[x] + (if reversed[x]
      then l - 1 - y else y)`. It always lies inside physical segment
      `xMap[x]`. */
  function CorrectedPixelIndex(t: Transform, x: nat, y: nat): (i: nat)
    requires t.Valid() && Addressable(t, x, y)
    ensures Offset(t.stripLength, t.xMap[x]) <= i < Offset(t.stripLength, t.xMap[x]) + t.stripLength
    ensures t.reversed[x] ==> i + 1 == PixelIndex(t, x, y)
    ensures !t.reversed[x] ==> i == PixelIndex(t, x, y)
  {
    Offset(t.stripLength, t.xMap[x]) + if t.reversed[x] then t.stripLength - 1 - y else y
  }

  /** With the corrected index, a point write followed by `apply` shows the
      colour at output position `Offset(l, x) + y` on every strip, reversed
      or not, and the write never falls outside a frame `apply` accepts. */
  lemma CorrectedWriteThenApply(t: Transform, frame: seq<ARGB8>, x: nat, y: nat, c: ARGB8)
    requires t.Valid() && t.Fits(|frame|)
    requires Addressable(t, x, y)
    ensures CorrectedPixelIndex(t, x, y) < |frame|
    ensures t.Fits(|frame[CorrectedPixelIndex(t, x, y) := c]|)
    ensures Offset(t.stripLength, x) + y < |Apply(t, frame[CorrectedPixelIndex(t, x, y) := c])|
    ensures Apply(t, frame[CorrectedPixelIndex(t, x, y) := c])[Offset(t.stripLength, x) + y] == c
  {
    ApplyAt(t, frame, x, y);
    var written := frame[CorrectedPixelIndex(t, x, y) := c];
    assert |written| == |frame|;
    ApplyAt(t, written, x, y);
  }

  /** The wiring the program uses: four strips of 144 pixels, strips 1 and 3
      reversed, and strips 1 and 2 swapped. */
  function ProgramWiring(): Transform
  {
    Transform(4, 144, [false, true, false, true], [0, 2, 1, 3])
  }

  /** The program's wiring is accepted by `New`. */
  lemma ProgramWiringAccepted()
    ensures New(4, 144, [false, true, false, true], [0, 2, 1, 3]) == Some(ProgramWiring())
    ensures ProgramWiring().Valid()
  {
  }

  /** The program's wiring turns every 576-pixel frame into a permutation
      of it. */
  lemma ProgramWiringPermutes(frame: seq<ARGB8>)
    requires |frame| == 576
    ensures ProgramWiring().Valid() && ProgramWiring().Fits(|frame|)
    ensures |Apply(ProgramWiring(), frame)| == 576
    ensures multiset(Apply(ProgramWiring(), frame)) == multiset(frame)
  {
    var t := ProgramWiring();
    assert Range(4) == [0, 1, 2, 3];
    assert multiset(t.xMap) == multiset(Range(4));
    ApplyPermutes(t, frame);
  }

  /** Under the program's wiring, output strip 1 is physical segment 2
      read backwards and output strip 2 is physical segment 1. */
  lemma ProgramWiringSegments(frame: seq<ARGB8>)
    requires |frame| == 576
    ensures ProgramWiring().Valid() && ProgramWiring().Fits(|frame|)
    ensures |Apply(ProgramWiring(), frame)| == 576
    ensures Apply(ProgramWiring(), frame)[144 .. 288] == Reverse(frame[288 .. 432])
    ensures Apply(ProgramWiring(), frame)[288 .. 432] == frame[144 .. 288]
  {
    var t := ProgramWiring();
    assert Offset(144, 1) == 144 && Offset(144, 2) == 288;
    ApplySegment(t, frame, 1);
    ApplySegment(t, frame, 2);
  }

  /** A point write at the start of the program's last strip, which is
      reversed, targets index 576: one past the end of a 576-pixel frame. */
  lemma ProgramWiringOverrun()
    ensures ProgramWiring().Valid() && Addressable(ProgramWiring(), 3, 0)
    ensures PixelIndex(ProgramWiring(), 3, 0) == 576
  {
  }
}
