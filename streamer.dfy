/** The pixel streamer: displayColor packs one colour into `lcd_buffer` and sends it in
    chunks; displayImage re-packs a caller's RGB565 pixels into the buffer chunk by chunk.
    Each operation is given twice: as what the code does through the buffer (ColorFill,
    ImageFrom) and as what should reach the bus (FillChunks, ImageChunks), with lemmas
    joining the two. */
module Streamer {
  import opened Bus

  /** The do-while's chunk choice: a full buffer, or what is left. */
  function ChunkSize(remaining: nat): (part: nat)
    ensures part <= BufferSize && part <= remaining
    ensures remaining > 0 ==> part > 0
    ensures part == remaining || part == BufferSize
  {
    if remaining >= BufferSize then BufferSize else remaining
  }

  /** Byte k of a buffer packed with one colour, high byte first. */
  function PatternByte(color: bv16, k: int): bv8
  {
    if k % 2 == 0 then Hi(color) else Lo(color)
  }

  function Pattern(color: bv16, n: nat): (p: seq<bv8>)
    ensures |p| == n
  {
    seq(n, k => PatternByte(color, k))
  }

  /** One past the last index the packing loop of displayColor writes: it stores a pair at
      every even index up to and including `colorSize`. */
  function FillEnd(colorSize: nat): (e: nat)
    ensures colorSize < e <= colorSize + 2 && e % 2 == 0
  {
    colorSize - colorSize % 2 + 2
  }

  /** The packing loop never leaves `lcd_buffer`: for the largest `colorSize` it writes up to
      index LCD_BUFFER_SIZE + 1, inside the four spare bytes. */
  lemma FillStaysInBuffer(colorSize: nat)
    requires colorSize <= BufferSize
    ensures FillEnd(colorSize) <= BufferLength
    ensures FillEnd(colorSize) - 1 <= colorSize + 1
  {
  }

  /** The buffer after the packing loop. */
  function Filled(buf: seq<bv8>, color: bv16, colorSize: nat): (r: seq<bv8>)
    ensures |r| == |buf|
  {
    seq(|buf|, k requires 0 <= k < |buf| => if k < FillEnd(colorSize) then PatternByte(color, k) else buf[k])
  }

  /** The do-while of displayColor: send the first `ChunkSize` bytes of the buffer until
      `remaining` reaches zero; it always sends at least once. */
  function SendChunks(s: Lcd, remaining: nat): (r: Lcd)
    requires |s.buffer| >= BufferSize
    ensures r.buffer == s.buffer && r.window == s.window
    ensures |r.trace| == |s.trace| + NumChunks(remaining) && r.trace[..|s.trace|] == s.trace
    decreases remaining
  {
    var part := ChunkSize(remaining);
    var s1 := s.(trace := s.trace + [Data(s.buffer[..part])]);
    if remaining - part > 0 then SendChunks(s1, remaining - part) else s1
  }

  /** The byte count displayColor sends: `widthheigthWindow * 2` in uint32 arithmetic. */
  function FillBytes(window: U32): U32
  {
    Wrap32(2 * window)
  }

  /** displayColor(color) on the current window (lines 399-417). */
  function ColorFill(s: Lcd, color: bv16): (r: Lcd)
    requires |s.buffer| == BufferLength
    ensures r.window == s.window && |r.buffer| == BufferLength
    ensures |r.trace| == |s.trace| + NumChunks(FillBytes(s.window)) && r.trace[..|s.trace|] == s.trace
  {
    var total := FillBytes(s.window);
    var buf := Filled(s.buffer, color, Min(BufferSize, total));
    SendChunks(s.(buffer := buf), total)
  }

  /** What should reach the bus for a fill of n bytes: the colour pattern in chunks. */
  function FillChunks(n: nat, color: bv16): seq<Event>
    decreases n
  {
    var part := ChunkSize(n);
    [Data(Pattern(color, part))] + (if n - part > 0 then FillChunks(n - part, color) else [])
  }

  /** How many writes a stream of n bytes takes: ceil(n / LCD_BUFFER_SIZE), but at least one. */
  function NumChunks(n: nat): nat
  {
    if n == 0 then 1 else (n + BufferSize - 1) / BufferSize
  }

  /** The chunk-size rule: every write but the last is a full buffer, the last is the
      remainder (at most a buffer, and non-empty unless nothing was to be sent). */
  predicate Chunked(t: seq<Event>, n: nat)
  {
    && DataOnly(t)
    && |t| == NumChunks(n)
    && Sum(Sizes(t)) == n
    && (forall k :: 0 <= k < |t| - 1 ==> |t[k].bytes| == BufferSize)
    && |t[|t| - 1].bytes| == n - BufferSize * (|t| - 1)
    && |t[|t| - 1].bytes| <= BufferSize
    && (n > 0 ==> |t[|t| - 1].bytes| > 0)
  }

  lemma {:induction false} ChunkedCons(d: Event, rest: seq<Event>, n: nat)
    requires n > BufferSize && d.Data? && |d.bytes| == BufferSize
    requires Chunked(rest, n - BufferSize)
    ensures Chunked([d] + rest, n)
  {
    var t := [d] + rest;
    SizesAppend([d], rest);
    assert Sizes([d]) == [BufferSize];
    SumAppend([BufferSize], Sizes(rest));
    assert (n + BufferSize - 1) / BufferSize == (n - BufferSize + BufferSize - 1) / BufferSize + 1;
    forall k | 0 <= k < |t| - 1 ensures |t[k].bytes| == BufferSize {
      if k > 0 { assert t[k] == rest[k - 1]; }
    }
    assert t[|t| - 1] == rest[|rest| - 1];
  }

  lemma ChunkedLast(d: Event, n: nat)
    requires d.Data? && |d.bytes| == n <= BufferSize
    ensures Chunked([d], n)
  {
    assert Sizes([d]) == [n] by {
      assert [d][1..] == [];
    }
    assert Sum([n]) == n by {
      assert [n][1..] == [];
    }
  }

  /** A fill sends its byte count in chunks that obey the chunk-size rule: never more than
      LCD_BUFFER_SIZE at once, ceil(n / LCD_BUFFER_SIZE) writes, and one write even for an
      empty window. */
  lemma {:induction false} FillChunksChunked(n: nat, color: bv16)
    ensures Chunked(FillChunks(n, color), n)
    decreases n
  {
    var part := ChunkSize(n);
    if n - part > 0 {
      FillChunksChunked(n - part, color);
      ChunkedCons(Data(Pattern(color, part)), FillChunks(n - part, color), n);
    } else {
      assert FillChunks(n, color) == [Data(Pattern(color, part))];
      ChunkedLast(Data(Pattern(color, part)), n);
    }
  }

  lemma PatternAppend(color: bv16, a: nat, b: nat)
    requires a % 2 == 0
    ensures Pattern(color, a) + Pattern(color, b) == Pattern(color, a + b)
  {
    var l, r := Pattern(color, a) + Pattern(color, b), Pattern(color, a + b);
    forall k | 0 <= k < a + b ensures l[k] == r[k] {
      if k >= a {
        assert l[k] == Pattern(color, b)[k - a];
        assert (k - a) % 2 == k % 2;
      }
    }
  }

  /** Everything a fill sends, concatenated, is the colour's byte pattern, high byte first,
      and each single write is that pattern too. */
  lemma {:induction false} FillChunksPayload(n: nat, color: bv16)
    ensures Payload(FillChunks(n, color)) == Pattern(color, n)
    ensures forall k :: 0 <= k < |FillChunks(n, color)| ==>
              FillChunks(n, color)[k].Data? &&
              FillChunks(n, color)[k].bytes == Pattern(color, |FillChunks(n, color)[k].bytes|)
    decreases n
  {
    var part := ChunkSize(n);
    var head := [Data(Pattern(color, part))];
    var t := FillChunks(n, color);
    assert Payload(head) == Pattern(color, part) by {
      assert head[1..] == [];
    }
    if n - part > 0 {
      var rest := FillChunks(n - part, color);
      FillChunksPayload(n - part, color);
      PayloadAppend(head, rest);
      PatternAppend(color, part, n - part);
      forall k | 0 <= k < |t| ensures t[k].Data? && t[k].bytes == Pattern(color, |t[k].bytes|) {
        if k > 0 { assert t[k] == rest[k - 1]; }
      }
    } else {
      assert t == head;
    }
  }

  /** What displayColor does to the trace and the buffer, stated without the buffer: the
      trace grows by the reference chunks of the window's pattern. */
  lemma {:induction false} SendChunksSendsPattern(s: Lcd, color: bv16, remaining: nat, colorSize: nat)
    requires |s.buffer| >= BufferSize
    requires forall k :: 0 <= k < colorSize && k < |s.buffer| ==> s.buffer[k] == PatternByte(color, k)
    requires colorSize == Min(BufferSize, remaining) || colorSize == BufferSize
    ensures SendChunks(s, remaining).trace == s.trace + FillChunks(remaining, color)
    ensures SendChunks(s, remaining).buffer == s.buffer
    ensures SendChunks(s, remaining).window == s.window
    decreases remaining
  {
    var part := ChunkSize(remaining);
    PrefixIsPattern(s.buffer, color, part, colorSize);
    var d := Data(s.buffer[..part]);
    var s1 := s.(trace := s.trace + [d]);
    if remaining - part > 0 {
      SendChunksSendsPattern(s1, color, remaining - part, BufferSize);
      AppendAssoc(s.trace, [d], FillChunks(remaining - part, color));
      assert FillChunks(remaining, color) == [d] + FillChunks(remaining - part, color);
    } else {
      assert FillChunks(remaining, color) == [d] + [];
    }
  }

  lemma PrefixIsPattern(buf: seq<bv8>, color: bv16, part: nat, colorSize: nat)
    requires part <= colorSize && part <= |buf|
    requires forall k :: 0 <= k < colorSize && k < |buf| ==> buf[k] == PatternByte(color, k)
    ensures buf[..part] == Pattern(color, part)
  {
  }

  lemma ColorFillSends(s: Lcd, color: bv16)
    requires |s.buffer| == BufferLength
    ensures ColorFill(s, color).trace == s.trace + FillChunks(FillBytes(s.window), color)
    ensures ColorFill(s, color).window == s.window
    ensures |ColorFill(s, color).buffer| == BufferLength
  {
    var total := FillBytes(s.window);
    var cs := Min(BufferSize, total);
    var buf := Filled(s.buffer, color, cs);
    SendChunksSendsPattern(s.(buffer := buf), color, total, cs);
  }

  /** Byte n of the big-endian (high byte first) stream of an RGB565 pixel buffer. */
  function ImageByte(image: seq<bv16>, n: nat): bv8
    requires n / 2 < |image|
  {
    if n % 2 == 0 then Hi(image[n / 2]) else Lo(image[n / 2])
  }

  /** The big-endian bytes of a pixel sequence, pixel by pixel. */
  function BigEndian(px: seq<bv16>): (r: seq<bv8>)
    ensures |r| == 2 * |px|
  {
    if px == [] then [] else [Hi(px[0]), Lo(px[0])] + BigEndian(px[1..])
  }

  lemma {:induction false} BigEndianAt(px: seq<bv16>, n: nat)
    requires n < 2 * |px|
    ensures BigEndian(px)[n] == ImageByte(px, n)
  {
    if n >= 2 {
      BigEndianAt(px[1..], n - 2);
      assert (n - 2) / 2 == n / 2 - 1 && (n - 2) % 2 == n % 2;
    }
  }

  /** `size` bytes of the big-endian stream of an image, from byte `pos` on. */
  function ImageChunk(image: seq<bv16>, pos: nat, size: nat): (r: seq<bv8>)
    requires pos + size <= 2 * |image|
    ensures |r| == size
  {
    seq(size, k requires 0 <= k < size => ImageByte(image, pos + k))
  }

  /** The buffer after one pass of displayImage's do-while: memset to 0x43, then the chunk's
      pixels written over the front. */
  function ImagePacked(buf: seq<bv8>, image: seq<bv16>, pos: nat, size: nat): (r: seq<bv8>)
    requires (pos + size) / 2 <= |image| && pos % 2 == 0 && size % 2 == 0
    ensures |r| == |buf|
  {
    seq(|buf|, k requires 0 <= k < |buf| =>
      if k < size then ImageByte(image, pos + k) else if k < BufferSize then 0x43 else buf[k])
  }

  /** The do-while of displayImage from byte `pos` of `total` (lines 218-232). */
  function ImageFrom(s: Lcd, image: seq<bv16>, total: nat, pos: nat): (r: Lcd)
    requires |s.buffer| == BufferLength
    requires pos <= total && pos % 2 == 0 && total % 2 == 0 && total / 2 <= |image|
    ensures r.window == s.window && |r.buffer| == BufferLength
    ensures |r.trace| == |s.trace| + NumChunks(total - pos) && r.trace[..|s.trace|] == s.trace
    decreases total - pos
  {
    var size := ChunkSize(total - pos);
    var s1 := ImagePass(s, image, pos, size);
    if pos + size < total then ImageFrom(s1, image, total, pos + size) else s1
  }

  /** One pass of the do-while: pack the chunk, then send the first `size` bytes of the
      buffer.  What is sent is exactly the chunk of the image; the filler stays behind. */
  function ImagePass(s: Lcd, image: seq<bv16>, pos: nat, size: nat): (r: Lcd)
    requires (pos + size) / 2 <= |image| && pos % 2 == 0 && size % 2 == 0 && size <= |s.buffer|
    ensures r.trace == s.trace + [Data(ImageChunk(image, pos, size))]
    ensures r.window == s.window && |r.buffer| == |s.buffer|
  {
    var buf := ImagePacked(s.buffer, image, pos, size);
    ImagePackedFront(s.buffer, image, pos, size);
    s.(trace := s.trace + [Data(buf[..size])], buffer := buf)
  }

  /** What should reach the bus for an image: the big-endian stream from byte `pos` on,
      cut into chunks. */
  function ImageChunks(image: seq<bv16>, total: nat, pos: nat): seq<Event>
    requires pos <= total && total / 2 <= |image| && total % 2 == 0
    decreases total - pos
  {
    var size := ChunkSize(total - pos);
    [Data(ImageChunk(image, pos, size))] +
    (if pos + size < total then ImageChunks(image, total, pos + size) else [])
  }

  lemma ImagePackedFront(buf: seq<bv8>, image: seq<bv16>, pos: nat, size: nat)
    requires (pos + size) / 2 <= |image| && pos % 2 == 0 && size % 2 == 0 && size <= |buf|
    ensures ImagePacked(buf, image, pos, size)[..size]
         == ImageChunk(image, pos, size)
  {
  }

  /** The 0x43 filler never reaches the bus: displayImage sends exactly the reference
      chunks, it never changes the window, and it keeps the buffer's length. */
  lemma {:induction false} ImageFromSends(s: Lcd, image: seq<bv16>, total: nat, pos: nat)
    requires |s.buffer| == BufferLength
    requires pos <= total && pos % 2 == 0 && total % 2 == 0 && total / 2 <= |image|
    ensures ImageFrom(s, image, total, pos).trace == s.trace + ImageChunks(image, total, pos)
    ensures ImageFrom(s, image, total, pos).window == s.window
    ensures |ImageFrom(s, image, total, pos).buffer| == BufferLength
    decreases total - pos
  {
    var size := ChunkSize(total - pos);
    EvenChunk(total, pos);
    var s1 := ImagePass(s, image, pos, size);
    var head := [Data(ImageChunk(image, pos, size))];
    if pos + size < total {
      ImageFromSends(s1, image, total, pos + size);
      assert ImageFrom(s, image, total, pos) == ImageFrom(s1, image, total, pos + size);
      assert ImageChunks(image, total, pos) == head + ImageChunks(image, total, pos + size);
      AppendAssoc(s.trace, head, ImageChunks(image, total, pos + size));
    } else {
      assert ImageFrom(s, image, total, pos) == s1;
      assert ImageChunks(image, total, pos) == head + [];
      assert head + [] == head;
    }
  }

  /** A chunk of an even stream from an even offset is even and ends inside the stream. */
  lemma EvenChunk(total: nat, pos: nat)
    requires pos <= total && pos % 2 == 0 && total % 2 == 0
    ensures ChunkSize(total - pos) % 2 == 0
    ensures (pos + ChunkSize(total - pos)) % 2 == 0
    ensures (pos + ChunkSize(total - pos)) / 2 <= total / 2
  {
  }

  /** One chunk, read through ImageByte, is the big-endian form of its own pixels. */
  lemma ChunkIsBigEndian(image: seq<bv16>, pos: nat, size: nat)
    requires (pos + size) / 2 <= |image| && pos % 2 == 0 && size % 2 == 0
    ensures ImageChunk(image, pos, size)
         == BigEndian(image[pos / 2..(pos + size) / 2])
  {
    var px := image[pos / 2..(pos + size) / 2];
    var chunk := ImageChunk(image, pos, size);
    assert (pos + size) / 2 == pos / 2 + size / 2;
    assert |px| * 2 == size;
    forall n | 0 <= n < size ensures chunk[n] == BigEndian(px)[n] {
      BigEndianAt(px, n);
      assert (pos + n) / 2 == pos / 2 + n / 2 && (pos + n) % 2 == n % 2;
      assert px[n / 2] == image[pos / 2 + n / 2];
      assert chunk[n] == ImageByte(image, pos + n);
      assert ImageByte(image, pos + n) == ImageByte(px, n);
    }
  }

  /** Two consecutive pieces of the big-endian stream join into one. */
  lemma ImageChunkAppend(image: seq<bv16>, pos: nat, a: nat, b: nat)
    requires pos + a + b <= 2 * |image|
    ensures ImageChunk(image, pos, a) + ImageChunk(image, pos + a, b) == ImageChunk(image, pos, a + b)
  {
    var l, r := ImageChunk(image, pos, a) + ImageChunk(image, pos + a, b), ImageChunk(image, pos, a + b);
    forall k | 0 <= k < a + b ensures l[k] == r[k] {
      if k >= a {
        assert l[k] == ImageChunk(image, pos + a, b)[k - a];
      }
    }
  }

  /** The chunks of an image, concatenated, are its big-endian stream from byte `pos` to
      byte `total`: no byte is lost, repeated or reordered. */
  lemma {:induction false} ImageChunksPayload(image: seq<bv16>, total: nat, pos: nat)
    requires pos <= total && pos % 2 == 0 && total % 2 == 0 && total / 2 <= |image|
    ensures Payload(ImageChunks(image, total, pos)) == ImageChunk(image, pos, total - pos)
    decreases total - pos
  {
    var size := ChunkSize(total - pos);
    EvenChunk(total, pos);
    var chunk := ImageChunk(image, pos, size);
    ImageChunksCons(image, total, pos);
    if pos + size < total {
      var rest := ImageChunks(image, total, pos + size);
      ImageChunksPayload(image, total, pos + size);
      PayloadCons(chunk, rest);
      ImageChunkAppend(image, pos, size, total - pos - size);
    } else {
      PayloadCons(chunk, []);
    }
  }

  /** The first chunk of an image stream, and the rest. */
  lemma ImageChunksCons(image: seq<bv16>, total: nat, pos: nat)
    requires pos <= total && pos % 2 == 0 && total % 2 == 0 && total / 2 <= |image|
    ensures pos + ChunkSize(total - pos) <= 2 * |image|
    ensures pos + ChunkSize(total - pos) < total ==>
      ImageChunks(image, total, pos)
      == [Data(ImageChunk(image, pos, ChunkSize(total - pos)))] + ImageChunks(image, total, pos + ChunkSize(total - pos))
    ensures pos + ChunkSize(total - pos) >= total ==>
      ChunkSize(total - pos) == total - pos &&
      ImageChunks(image, total, pos) == [Data(ImageChunk(image, pos, ChunkSize(total - pos)))]
  {
  }

  /** An image stream obeys the same chunk-size rule as a fill. */
  lemma {:induction false} ImageChunksChunked(image: seq<bv16>, total: nat, pos: nat)
    requires pos <= total && total / 2 <= |image| && total % 2 == 0
    ensures Chunked(ImageChunks(image, total, pos), total - pos)
    decreases total - pos
  {
    var size := ChunkSize(total - pos);
    var head := Data(ImageChunk(image, pos, size));
    if pos + size < total {
      ImageChunksChunked(image, total, pos + size);
      ChunkedCons(head, ImageChunks(image, total, pos + size), total - pos);
    } else {
      assert ImageChunks(image, total, pos) == [head];
      ChunkedLast(head, total - pos);
    }
  }
}
