/** The APA102 wire buffer of one LED strip: a 4-byte zero start frame, one
    4-byte record per LED, and an end-frame region of extra clock bytes whose
    first byte is 0xFF. The buffer is allocated once and only the LED records
    are rewritten on every frame. */
module Apa102 {

  /** One pixel colour: `a` is the brightness channel, then red, green, blue. */
  datatype ARGB8 = ARGB8(a: bv8, r: bv8, g: bv8, b: bv8)

  /** Offset of the first end-frame byte: start frame plus `length` records. */
  function EndFrameOffset(length: nat): nat
  {
    4 * (length + 1)
  }

  /** Number of extra clock bytes after the LED records. */
  function EndFrameSize(length: nat): nat
  {
    6 + length / 16
  }

  function BufferSize(length: nat): nat
  {
    EndFrameOffset(length) + EndFrameSize(length)
  }

  /** The bytes of a buffer that never change after allocation: the zero start
      frame, the 0xFF that opens the end frame and the zero bytes after it. */
  predicate Framed(buf: seq<bv8>, length: nat)
  {
    |buf| == BufferSize(length) &&
    (forall k :: 0 <= k < 4 ==> buf[k] == 0) &&
    buf[EndFrameOffset(length)] == 0xFF &&
    (forall k :: EndFrameOffset(length) < k < |buf| ==> buf[k] == 0)
  }

  /** The brightness byte exactly as the driver computes it: a bitwise AND
      of the alpha channel with 0xE0. */
  function BrightnessByte(a: bv8): (r: bv8)
    ensures r & 0x1F == 0
    ensures a <= 31 ==> r == 0
    ensures r | 0x1F == a | 0x1F
  {
    0xE0 & a
  }

  /** The brightness byte the APA102 wire format calls for, `0xE0 | a`: the
      three marker bits set, then the 5-bit global brightness. */
  function CorrectedBrightnessByte(a: bv8): (r: bv8)
    ensures r & 0xE0 == 0xE0
    ensures r & 0x1F == a & 0x1F
    ensures a <= 31 ==> r & 0x1F == a
  {
    0xE0 | a
  }

  /** Full and zero brightness: the corrected byte gives 0xFF and 0xE0,
      while the byte as written gives 0x00 for both. */
  lemma BrightnessEnds()
    ensures CorrectedBrightnessByte(31) == 0xFF && BrightnessByte(31) == 0x00
    ensures CorrectedBrightnessByte(0) == 0xE0 && BrightnessByte(0) == 0x00
  {
  }

  /** Byte `k` of the 4-byte record of pixel `p`, in wire order:
      brightness, blue, green, red. */
  function RecordByte(p: ARGB8, k: nat): bv8
    requires k < 4
  {
    if k == 0 then BrightnessByte(p.a)
    else if k == 1 then p.b
    else if k == 2 then p.g
    else p.r
  }

  /** The buffer after encoding the first `length` pixels of `frame` into
      `buf`: every byte of the LED-record region comes from its pixel, every
      other byte is the old one. */
  function Encode(buf: seq<bv8>, frame: seq<ARGB8>, length: nat): (r: seq<bv8>)
    requires EndFrameOffset(length) <= |buf| && length <= |frame|
    ensures |r| == |buf|
    ensures forall k {:trigger r[k]} :: 0 <= k < |buf| && !(4 <= k < EndFrameOffset(length)) ==> r[k] == buf[k]
  {
    seq(|buf|, k requires 0 <= k < |buf| =>
      if 4 <= k < EndFrameOffset(length) then RecordByte(frame[k / 4 - 1], k % 4) else buf[k])
  }

  /** Encoding no pixel leaves the buffer as it is. */
  lemma EncodeNothing(buf: seq<bv8>, frame: seq<ARGB8>)
    requires EndFrameOffset(0) <= |buf|
    ensures Encode(buf, frame, 0) == buf
  {
  }

  /** Encoding one more pixel writes its four record bytes and nothing else. */
  lemma EncodeStep(buf: seq<bv8>, frame: seq<ARGB8>, i: nat)
    requires EndFrameOffset(i + 1) <= |buf| && i < |frame|
    ensures Encode(buf, frame, i + 1) ==
      Encode(buf, frame, i)[4 * (i + 1) := BrightnessByte(frame[i].a)][4 * (i + 1) + 1 := frame[i].b]
                           [4 * (i + 1) + 2 := frame[i].g][4 * (i + 1) + 3 := frame[i].r]
  {
    var idx := 4 * (i + 1);
    var next := Encode(buf, frame, i + 1);
    var prev := Encode(buf, frame, i);
    forall k | idx <= k < idx + 4
      ensures next[k] == RecordByte(frame[i], k - idx)
    {
      assert k / 4 - 1 == i && k % 4 == k - idx;
    }
  }

  /** The record of pixel `i` sits at offset 4*(i+1), in the order
      brightness, blue, green, red, and the buffer keeps its length. */
  lemma EncodeRecord(buf: seq<bv8>, frame: seq<ARGB8>, length: nat, i: nat)
    requires EndFrameOffset(length) <= |buf| && length <= |frame|
    requires i < length
    ensures |Encode(buf, frame, length)| == |buf|
    ensures Encode(buf, frame, length)[4 * (i + 1)] == 0xE0 & frame[i].a
    ensures Encode(buf, frame, length)[4 * (i + 1) + 1] == frame[i].b
    ensures Encode(buf, frame, length)[4 * (i + 1) + 2] == frame[i].g
    ensures Encode(buf, frame, length)[4 * (i + 1) + 3] == frame[i].r
  {
    var e := Encode(buf, frame, length);
    var idx := 4 * (i + 1);
    assert idx / 4 - 1 == i && (idx + 1) / 4 - 1 == i && (idx + 2) / 4 - 1 == i && (idx + 3) / 4 - 1 == i;
    assert idx % 4 == 0 && (idx + 1) % 4 == 1 && (idx + 2) % 4 == 2 && (idx + 3) % 4 == 3;
  }

  /** Encoding leaves the start frame and the whole end-frame region as they
      were, so a framed buffer stays framed. */
  lemma EncodeKeepsFraming(buf: seq<bv8>, frame: seq<ARGB8>, length: nat)
    requires Framed(buf, length) && length <= |frame|
    ensures |Encode(buf, frame, length)| == |buf|
    ensures forall k :: 0 <= k < |buf| && !(4 <= k < EndFrameOffset(length)) ==>
      Encode(buf, frame, length)[k] == buf[k]
    ensures Framed(Encode(buf, frame, length), length)
  {
  }

  /** Encoding the same frame twice gives the buffer of encoding it once. */
  lemma EncodeIdempotent(buf: seq<bv8>, frame: seq<ARGB8>, length: nat)
    requires EndFrameOffset(length) <= |buf| && length <= |frame|
    ensures Encode(Encode(buf, frame, length), frame, length) == Encode(buf, frame, length)
  {
  }

  /** The result depends only on the first `length` pixels and on the bytes
      outside the LED-record region, never on the old LED records. */
  lemma EncodeDependsOnlyOnPrefix(buf1: seq<bv8>, buf2: seq<bv8>, frame1: seq<ARGB8>, frame2: seq<ARGB8>, length: nat)
    requires EndFrameOffset(length) <= |buf1| == |buf2|
    requires length <= |frame1| && length <= |frame2|
    requires frame1[..length] == frame2[..length]
    requires forall k :: 0 <= k < |buf1| && !(4 <= k < EndFrameOffset(length)) ==> buf1[k] == buf2[k]
    ensures Encode(buf1, frame1, length) == Encode(buf2, frame2, length)
  {
    var e1, e2 := Encode(buf1, frame1, length), Encode(buf2, frame2, length);
    forall k | 0 <= k < |buf1|
      ensures e1[k] == e2[k]
    {
      if 4 <= k < EndFrameOffset(length) {
        assert frame1[k / 4 - 1] == frame1[..length][k / 4 - 1];
      }
    }
  }

  /** A strip driver owning its wire buffer. */
  class Apa102 {
    const length: nat
    const buffer: array<bv8>

    ghost predicate Valid()
      reads this, buffer
    {
      Framed(buffer[..], length)
    }

    /** Allocates the zeroed buffer and sets the first end-frame byte. The
        sizes are computed in 16-bit arithmetic, which holds them only for
        lengths below 16383. */
    constructor (length: nat)
      requires length < 16383
      ensures Valid() && fresh(buffer) && this.length == length
      ensures buffer.Length == 4 * (length + 1) + 6 + length / 16
      ensures buffer[4 * (length + 1)] == 0xFF
      ensures forall k :: 0 <= k < buffer.Length && k != 4 * (length + 1) ==> buffer[k] == 0
    {
      var endFrame := 6 + length / 16;
      var ledFrame := 4 * (length + 1);
      var b := new bv8[ledFrame + endFrame](_ => 0);
      b[ledFrame] := 0xFF;
      this.length := length;
      buffer := b;
    }

    /** Rewrites the LED records from the first `length` pixels of `frame`,
        in place. */
    method Update(frame: seq<ARGB8>)
      requires Valid()
      requires length <= |frame|
      modifies buffer
      ensures Valid()
      ensures buffer[..] == Encode(old(buffer[..]), frame, length)
    {
      ghost var before := buffer[..];
      WriteRecords(frame);
      EncodeKeepsFraming(before, frame, length);
    }

    /** The loop of `Update`: pixel `i` goes to the record at 4*(i+1). */
    method WriteRecords(frame: seq<ARGB8>)
      requires EndFrameOffset(length) <= buffer.Length
      requires length <= |frame|
      modifies buffer
      ensures buffer[..] == Encode(old(buffer[..]), frame, length)
    {
      ghost var before := buffer[..];
      EncodeNothing(before, frame);
      var i := 0;
      while i < length
        invariant 0 <= i <= length
        invariant buffer[..] == Encode(before, frame, i)
      {
        EncodeStep(before, frame, i);
        WriteRecord(4 * (1 + i), frame[i]);
        i := i + 1;
      }
    }

    /** Writes one LED record (masked brightness, blue, green, red) at `idx`. */
    method WriteRecord(idx: nat, e: ARGB8)
      requires idx + 4 <= buffer.Length
      modifies buffer
      ensures buffer[..] == old(buffer[..])[idx := 0xE0 & e.a][idx + 1 := e.b][idx + 2 := e.g][idx + 3 := e.r]
    {
      buffer[idx] := 0xE0 & e.a;
      buffer[idx + 1] := e.b;
      buffer[idx + 2] := e.g;
      buffer[idx + 3] := e.r;
    }

    /** The bytes to put on the wire. */
    function GetBuffer(): (r: seq<bv8>)
      reads this, buffer
      requires Valid()
      ensures Framed(r, length)
      ensures |r| == 4 * (length + 1) + 6 + length / 16
    {
      buffer[..]
    }
  }
}
