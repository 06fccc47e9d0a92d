/** display.cpp as the code runs it: the driver's globals as the fields of one object and
    each routine as a method that changes them step by step.  Every method is proved to
    leave the bus and the globals as the specification function of its routine says. */
module Display {
  import opened Bus
  import opened Streamer
  import opened Protocol
  import opened Decoder
  import opened Raster
  import opened Layout

  class Display {
    /** `lcd_buffer`: LCD_BUFFER_SIZE bytes and four spare ones. */
    const lcdBuffer: array<bv8>
    /** The font57 table: five column bytes per slot (its contents are not part of this model). */
    const font: seq<bv8>
    /** The colour displayColor() uses when called without one (declared in display.h). */
    const defaultColor: bv16
    /** The ST77XX opcodes of display_enable. */
    const opcodes: Opcodes

    /** What has gone out on the bus so far. */
    var trace: seq<Event>
    var widthheigthWindow: U32
    var lastUniChar: bool
    var lastChar: bv8

    predicate Valid()
      reads this
    {
      lcdBuffer.Length == BufferLength && |font| == FontLength
    }

    /** The bus and the globals the drawing routines touch. */
    function BusState(): Lcd
      reads this, lcdBuffer
    {
      Lcd(trace, widthheigthWindow, lcdBuffer[..])
    }

    /** The decoder globals `last_uni_char` and `last_char`. */
    function Dec(): Decoder
      reads this
    {
      Decoder(lastUniChar, lastChar)
    }

    /** The globals as the program starts: all zero, nothing sent. */
    constructor(font: seq<bv8>, defaultColor: bv16, opcodes: Opcodes)
      requires |font| == FontLength
      ensures Valid() && fresh(lcdBuffer)
      ensures this.font == font && this.defaultColor == defaultColor && this.opcodes == opcodes
      ensures BusState() == Lcd([], 0, seq(BufferLength, _ => 0)) && Dec() == Initial
    {
      lcdBuffer := new bv8[BufferLength](_ => 0);
      this.font := font;
      this.defaultColor := defaultColor;
      this.opcodes := opcodes;
      trace := [];
      widthheigthWindow := 0;
      lastUniChar := false;
      lastChar := 0;
    }

    /** startWrite (lines 389-392): chip select asserted. */
    method StartWrite()
      requires Valid()
      modifies this
      ensures Valid() && Dec() == old(Dec())
      ensures trace == old(trace) + [Begin] && widthheigthWindow == old(widthheigthWindow)
    {
      trace := trace + [Begin];
    }

    /** endWrite (lines 394-397): chip select released. */
    method EndWrite()
      requires Valid()
      modifies this
      ensures Valid() && Dec() == old(Dec())
      ensures trace == old(trace) + [End] && widthheigthWindow == old(widthheigthWindow)
    {
      trace := trace + [End];
    }

    /** spiCommand (lines 379-383): one byte with the register-select line low. */
    method SpiCommand(d: bv8)
      requires Valid()
      modifies this
      ensures Valid() && Dec() == old(Dec())
      ensures trace == old(trace) + [Cmd(d)] && widthheigthWindow == old(widthheigthWindow)
    {
      trace := trace + [Cmd(d)];
    }

    /** spiWrite (lines 385-387): one data byte. */
    method SpiWrite(d: bv8)
      requires Valid()
      modifies this
      ensures Valid() && Dec() == old(Dec())
      ensures trace == old(trace) + [Data([d])] && widthheigthWindow == old(widthheigthWindow)
    {
      trace := trace + [Data([d])];
    }

    /** write_fast_spi(buf, n): the first n bytes of buf as one data write.  The buffer is
        passed by value: `lcd_buffer` as it is at the call, or a routine's local `temp`. */
    method WriteFastSpi(buf: seq<bv8>, n: nat)
      requires Valid() && n <= |buf|
      modifies this
      ensures Valid() && Dec() == old(Dec())
      ensures trace == old(trace) + [Data(buf[..n])] && widthheigthWindow == old(widthheigthWindow)
    {
      trace := trace + [Data(buf[..n])];
    }

    /** setAddrWindowDisplay (lines 256-273). */
    method SetAddrWindowDisplay(x: U32, y: U32, w: U32, h: U32)
      requires Valid()
      modifies this
      ensures Valid() && Dec() == old(Dec())
      ensures BusState() == SetWindow(old(BusState()), x, y, w, h)
    {
      widthheigthWindow := Wrap32(w * h);
      SpiCommand(0x2A);
      var temp: seq<bv8> := [0x00, Byte(x), 0x00, Byte(Wrap32(x + w - 1))];
      assert temp[..4] == temp;
      WriteFastSpi(temp, 4);
      SpiCommand(0x2B);
      temp := [0x00, Byte(y), 0x00, Byte(Wrap32(y + h - 1))];
      assert temp[..4] == temp;
      WriteFastSpi(temp, 4);
      SpiCommand(0x2C);
    }

    /** displayColor(color) (lines 399-417): pack the colour into the buffer, then send the
        window's bytes from it in chunks. */
    method DisplayColor(color: bv16)
      requires Valid()
      modifies this, lcdBuffer
      ensures Valid() && Dec() == old(Dec())
      ensures BusState() == ColorFill(old(BusState()), color)
    {
      var currentAll: U32 := FillBytes(widthheigthWindow);
      var colorSize: U32 := BufferSize;
      if currentAll < colorSize {
        colorSize := currentAll;
      }
      PackColor(color, colorSize);
      assert colorSize == Min(BufferSize, currentAll);
      SendFill(currentAll);
    }

    /** The packing loop of displayColor: a high and a low byte at every even index up to
        and including colorSize. */
    method PackColor(color: bv16, colorSize: nat)
      requires Valid() && colorSize <= BufferSize
      modifies lcdBuffer
      ensures lcdBuffer[..] == Filled(old(lcdBuffer[..]), color, colorSize)
    {
      var i := 0;
      while i <= colorSize
        modifies lcdBuffer
        invariant i % 2 == 0 && i <= FillEnd(colorSize)
        invariant forall k :: 0 <= k < lcdBuffer.Length ==>
                    lcdBuffer[k] == if k < i then PatternByte(color, k) else old(lcdBuffer[k])
        decreases colorSize + 2 - i
      {
        lcdBuffer[i] := Hi(color);
        i := i + 1;
        lcdBuffer[i] := Lo(color);
        i := i + 1;
      }
    }

    /** The sending do-while of displayColor: chunks of the buffer until currentAll bytes
        are sent, at least one write. */
    method SendFill(currentAll: U32)
      requires Valid()
      modifies this
      ensures Valid() && Dec() == old(Dec()) && unchanged(lcdBuffer)
      ensures BusState() == SendChunks(old(BusState()), currentAll)
    {
      ghost var target := SendChunks(BusState(), currentAll);
      var remaining: U32 := currentAll;
      var currentPart: U32;
      while true
        invariant Valid() && Dec() == old(Dec()) && unchanged(lcdBuffer)
        invariant SendChunks(BusState(), remaining) == target
        decreases remaining
      {
        ghost var before := BusState();
        ghost var rest := remaining;
        if remaining >= BufferSize {
          currentPart := BufferSize;
        } else {
          currentPart := remaining;
        }
        WriteFastSpi(lcdBuffer[..], currentPart);
        remaining := remaining - currentPart;
        assert BusState() == before.(trace := before.trace + [Data(before.buffer[..ChunkSize(rest)])]);
        if remaining == 0 {
          break;
        }
      }
    }

    /** displayRect (lines 204-209). */
    method DisplayRect(x: U32, y: U32, w: U32, h: U32, color: bv16)
      requires Valid()
      modifies this, lcdBuffer
      ensures Valid() && Dec() == old(Dec())
      ensures BusState() == FillRect(old(BusState()), x, y, w, h, color)
    {
      StartWrite();
      SetAddrWindowDisplay(x, y, w, h);
      DisplayColor(color);
      EndWrite();
      assert old(BusState()).trace + [Begin] == old(BusState()).trace + [Begin] + [];
    }


    /** One pass of displayImage's do-while before the write (lines 219-228): fill the
        buffer with 0x43, then pack the chunk's pixels over its front, high byte first.
        Returns the advanced `bufferPos`. */
    method PackImage(image: seq<bv16>, pos: nat, size: nat, bufferPos: nat) returns (next: nat)
      requires Valid() && size <= BufferSize && size % 2 == 0
      requires bufferPos * 2 == pos && (pos + size) / 2 <= |image|
      modifies lcdBuffer
      ensures lcdBuffer[..] == ImagePacked(old(lcdBuffer[..]), image, pos, size)
      ensures next * 2 == pos + size
    {
      var k := 0;
      while k < BufferSize
        invariant 0 <= k <= BufferSize
        invariant forall m :: 0 <= m < lcdBuffer.Length ==>
                    lcdBuffer[m] == (if m < k then 0x43 else old(lcdBuffer[m]))
      {
        lcdBuffer[k] := 0x43;
        k := k + 1;
      }
      next := bufferPos;
      var i := 0;
      while i < size
        invariant 0 <= i <= size && i % 2 == 0
        invariant next * 2 == pos + i
        invariant forall m :: 0 <= m < lcdBuffer.Length ==>
                    lcdBuffer[m] == (if m < i then ImageByte(image, pos + m)
                                     else if m < BufferSize then 0x43 else old(lcdBuffer[m]))
      {
        PixelPair(pos + i, next);
        lcdBuffer[i] := Hi(image[next]);
        i := i + 1;
        lcdBuffer[i] := Lo(image[next]);
        i := i + 1;
        next := next + 1;
      }
      assert lcdBuffer[..] == ImagePacked(old(lcdBuffer[..]), image, pos, size);
    }

    /** One pass of displayImage's do-while (lines 219-231): pack the chunk, then send
        its `size` bytes. */
    method SendImageChunk(image: seq<bv16>, pos: nat, size: nat, bufferPos: nat) returns (next: nat)
      requires Valid() && size <= BufferSize && size % 2 == 0
      requires bufferPos * 2 == pos && (pos + size) / 2 <= |image|
      modifies this, lcdBuffer
      ensures Valid() && Dec() == old(Dec())
      ensures BusState() == ImagePass(old(BusState()), image, pos, size)
      ensures next * 2 == pos + size
    {
      next := PackImage(image, pos, size, bufferPos);
      WriteFastSpi(lcdBuffer[..], size);
    }

    /** The do-while of displayImage (lines 218-232): `numPixels` bytes of the image from
        byte 0 on, chunk by chunk.  `bufferPos` is given the initial value 0. */
    method StreamImage(image: seq<bv16>, numPixels: U32)
      requires Valid() && numPixels % 2 == 0 && numPixels / 2 <= |image|
      modifies this, lcdBuffer
      ensures Valid() && Dec() == old(Dec())
      ensures BusState() == ImageFrom(old(BusState()), image, numPixels, 0)
    {
      var curPosition: U32 := 0;
      var curSize: U32;
      var bufferPos: nat := 0;
      while true
        invariant Valid() && Dec() == old(Dec())
        invariant curPosition <= numPixels && bufferPos * 2 == curPosition
        invariant ImageFrom(BusState(), image, numPixels, curPosition) == ImageFrom(old(BusState()), image, numPixels, 0)
        decreases numPixels - curPosition
      {
        if numPixels - curPosition > BufferSize {
          curSize := BufferSize;
        } else {
          curSize := numPixels - curPosition;
        }
        EvenChunk(numPixels, curPosition);
        assert curSize == ChunkSize(numPixels - curPosition);
        bufferPos := SendImageChunk(image, curPosition, curSize, bufferPos);
        curPosition := curPosition + curSize;
        if curPosition >= numPixels {
          break;
        }
      }
    }

    /** displayImage (lines 211-234): stream `image`, an RGB565 table read from index 0 on,
        through the buffer into the window, in one transaction. */
    method DisplayImage(x: U32, y: U32, w: U32, h: U32, image: seq<bv16>)
      requires Valid() && PixelBytes(w, h) / 2 <= |image|
      modifies this, lcdBuffer
      ensures Valid() && Dec() == old(Dec())
      ensures BusState() == DrawImage(old(BusState()), x, y, w, h, image)
    {
      StartWrite();
      SetAddrWindowDisplay(x, y, w, h);
      var numPixels: U32 := Wrap32(widthheigthWindow * 2);
      PixelBytesBound(w, h);
      assert numPixels == PixelBytes(w, h);
      StreamImage(image, numPixels);
      EndWrite();
    }

    /** display_enable (lines 236-247). */
    method DisplayEnable(state: bool)
      requires Valid()
      modifies this
      ensures Valid() && Dec() == old(Dec())
      ensures trace == old(trace) + EnableEvents(opcodes, state) && widthheigthWindow == old(widthheigthWindow)
    {
      StartWrite();
      if state {
        SpiCommand(opcodes.dispOn);
        SpiCommand(opcodes.slpOut);
      } else {
        SpiCommand(opcodes.slpIn);
        SpiCommand(opcodes.dispOff);
      }
      EndWrite();
    }

    /** display_clear (lines 249-254): the whole panel in the default colour. */
    method DisplayClear()
      requires Valid()
      modifies this, lcdBuffer
      ensures Valid() && Dec() == old(Dec())
      ensures BusState() == FillRect(old(BusState()), 0, 0, PanelSize, PanelSize, defaultColor)
    {
      StartWrite();
      SetAddrWindowDisplay(0, 0, PanelSize, PanelSize);
      DisplayColor(defaultColor);
      EndWrite();
      assert old(BusState()).trace + [Begin] == old(BusState()).trace + [Begin] + [];
    }

    /** The register writes of initDisplay (lines 292-373), register by register: the
        command, then each parameter write as one Data event. */
    method SendRegisters(regs: seq<Register>)
      requires Valid()
      modifies this
      ensures Valid() && Dec() == old(Dec())
      ensures trace == old(trace) + Emit(regs) && widthheigthWindow == old(widthheigthWindow)
    {
      for k := 0 to |regs|
        invariant Valid() && Dec() == old(Dec()) && widthheigthWindow == old(widthheigthWindow)
        invariant trace + Emit(regs[k..]) == old(trace) + Emit(regs)
      {
        ghost var tk := trace;
        SpiCommand(regs[k].op);
        var writes := regs[k].writes;
        for n := 0 to |writes|
          invariant Valid() && Dec() == old(Dec()) && widthheigthWindow == old(widthheigthWindow)
          invariant trace == tk + [Cmd(regs[k].op)] + DataEvents(writes[..n])
        {
          WriteFastSpi(writes[n], |writes[n]|);
          DataEventsSnoc(writes, n);
          assert writes[n][..|writes[n]|] == writes[n];
        }
        assert writes[..|writes|] == writes;
        RegisterSent(regs, k, tk, trace);
      }
      assert regs[|regs|..] == [];
    }

    /** initDisplay from its startWrite on (lines 291-376): the register script, then the
        whole panel in the default colour, in one transaction. */
    method InitDisplay()
      requires Valid()
      modifies this, lcdBuffer
      ensures Valid() && Dec() == old(Dec())
      ensures BusState() == Init(old(BusState()), defaultColor)
    {
      StartWrite();
      SendRegisters(InitRegisters());
      SetAddrWindowDisplay(0, 0, PanelSize, PanelSize);
      DisplayColor(defaultColor);
      EndWrite();
    }

    /** init_display (lines 24-27). */
    method InitAndClear()
      requires Valid()
      modifies this, lcdBuffer
      ensures Valid() && Dec() == old(Dec())
      ensures BusState() == FillRect(Init(old(BusState()), defaultColor), 0, 0, PanelSize, PanelSize, defaultColor)
    {
      InitDisplay();
      DisplayClear();
    }

    /** The inner loop of drawChar's rasterizer (lines 176-183): the eight cells of column
        i, bit j of `line` for row j. */
    method DrawColumn(x: U32, y: U32, size: U32, i: nat, line: bv8, color: bv16, bg: bv16)
      requires Valid()
      modifies this, lcdBuffer
      ensures Valid() && Dec() == old(Dec())
      ensures BusState() == ApplyRects(old(BusState()), RowRects(x, y, size, i, line, 0, color, bg))
    {
      ghost var target := ApplyRects(BusState(), RowRects(x, y, size, i, line, 0, color, bg));
      var bits := line;
      var j := 0;
      while j < 8
        invariant 0 <= j <= 8 && Valid() && Dec() == old(Dec())
        invariant ApplyRects(BusState(), RowRects(x, y, size, i, bits, j, color, bg)) == target
      {
        ghost var before := BusState();
        CellStep(before, x, y, size, i, bits, j, color, bg);
        if bits & 1 == 1 {
          DisplayRect(Wrap32(x + i * size), Wrap32(y + j * size), size, size, color);
          ApplyRectsOne(before, CellRect(x, y, size, i, j, color));
        } else if bg != color {
          DisplayRect(Wrap32(x + i * size), Wrap32(y + j * size), size, size, bg);
          ApplyRectsOne(before, CellRect(x, y, size, i, j, bg));
        }
        j := j + 1;
        bits := bits >> 1;
      }
    }

    /** drawChar's rasterizer (lines 174-187): the five font columns of slot g, then the
        spacing column when the background is drawn. */
    method DrawGlyph(x: U32, y: U32, g: bv8, color: bv16, bg: bv16, size: U32)
      requires Valid()
      modifies this, lcdBuffer
      ensures Valid() && Dec() == old(Dec())
      ensures BusState() == ApplyRects(old(BusState()), GlyphRects(x, y, size, FontColumns(font, g), color, bg))
    {
      ghost var cols := FontColumns(font, g);
      ghost var s0 := BusState();
      ghost var target := ApplyRects(s0, ColumnRects(x, y, size, cols, 0, color, bg));
      for i := 0 to 5
        invariant Valid() && Dec() == old(Dec())
        invariant ApplyRects(BusState(), ColumnRects(x, y, size, cols, i, color, bg)) == target
      {
        var line := font[g as nat * 5 + i];
        ColumnStep(BusState(), x, y, size, cols, i, color, bg);
        DrawColumn(x, y, size, i, line, color, bg);
      }
      ghost var s1 := BusState();
      if bg != color {
        DisplayRect(Wrap32(x + 5 * size), y, size, Wrap32(8 * size), bg);
        ApplyRectsOne(s1, Rect(Wrap32(x + 5 * size), y, size, Wrap32(8 * size), bg));
      }
      ApplyRectsAppend(s0, ColumnRects(x, y, size, cols, 0, color, bg), Spacing(x, y, size, color, bg));
    }

    /** drawChar (lines 29-188): decode c, and when a slot comes out draw it; returns
        whether a glyph was drawn. */
    method DrawChar(x: U32, y: U32, c: bv8, color: bv16, bg: bv16, size: U32) returns (drawn: bool)
      requires Valid()
      modifies this, lcdBuffer
      ensures Valid()
      ensures BusState() == Layout.DrawChar(old(BusState()), old(Dec()), font, x, y, c, color, bg, size).bus
      ensures Dec() == Layout.DrawChar(old(BusState()), old(Dec()), font, x, y, c, color, bg, size).dec
      ensures drawn == Layout.DrawChar(old(BusState()), old(Dec()), font, x, y, c, color, bg, size).drawn
    {
      var ch := c;
      if c < 32 {
        return false;
      }
      if c >= 127 {
        if !lastUniChar {
          lastChar := c;
          lastUniChar := true;
          return false;
        } else {
          lastUniChar := false;
          var g := Remap(lastChar, c);
          if g.None? {
            return false;
          }
          ch := g.value;
        }
      }
      assert DecodeStep(old(Dec()), c) == Step(Dec(), Some(ch));
      DrawGlyph(x, y, ch, color, bg, size);
      return true;
    }

    /** One pass of displayPrintln's loop (lines 193-200): wrap when the cursor has reached
        column 234, then draw c at the cursor and count it when it was drawn. */
    method PrintChar(x: U32, y: U32, tp: nat, c: bv8, color: bv16, bg: bv16, size: U32)
      returns (x': U32, y': U32, tp': nat)
      requires Valid()
      modifies this, lcdBuffer
      ensures Valid()
      ensures Pen(BusState(), Dec(), x', y', tp')
           == PrintStep(Pen(old(BusState()), old(Dec()), x, y, tp), font, c, color, bg, size)
    {
      ghost var p := Pen(BusState(), Dec(), x, y, tp);
      x', y', tp' := x, y, tp;
      if Wrap32(x' + tp' * 6 * size) >= 234 {
        x' := Wrap32(-(tp' * 6 * size));
        y' := Wrap32(y' + 8 * size);
      }
      ghost var w := Pen(BusState(), Dec(), x', y', tp');
      assert w == Wrap(p, size);
      var at := Wrap32(x' + tp' * 6 * size);
      assert (at, y') == Place(p, size);
      var drawn := DrawChar(at, y', c, color, bg, size);
      if drawn {
        tp' := tp' + 1;
      }
      StepOf(p, w, font, c, color, bg, size);
    }

    /** displayPrintln (lines 190-202): draw the bytes of text left to right from (x, y),
        wrapping to a new line whenever the cursor reaches column 234. */
    method DisplayPrintln(x: U32, y: U32, text: seq<bv8>, color: bv16, bg: bv16, size: U32)
      requires Valid()
      modifies this, lcdBuffer
      ensures Valid()
      ensures BusState() == Println(old(BusState()), old(Dec()), font, x, y, text, color, bg, size).bus
      ensures Dec() == Println(old(BusState()), old(Dec()), font, x, y, text, color, bg, size).dec
    {
      ghost var start := Pen(BusState(), Dec(), x, y, 0);
      var tempPosition: nat := 0;
      var cx: U32, cy: U32 := x, y;
      for f := 0 to |text|
        invariant Valid()
        invariant Pen(BusState(), Dec(), cx, cy, tempPosition) == Print(start, font, text[..f], color, bg, size)
      {
        cx, cy, tempPosition := PrintChar(cx, cy, tempPosition, text[f], color, bg, size);
        assert text[..f + 1][..f] == text[..f];
        PrintUnfold(start, font, text[..f + 1], color, bg, size);
      }
      assert text[..|text|] == text;
    }
  }

  /** Byte n of the image stream, n even, is the high byte of pixel n / 2; byte n + 1 its
      low byte. */
  lemma PixelPair(n: nat, p: nat)
    requires n == 2 * p
    ensures n / 2 == p && n % 2 == 0 && (n + 1) / 2 == p && (n + 1) % 2 == 1
  {
  }

  lemma ApplyRectsOne(s: Lcd, q: Rect)
    requires |s.buffer| == BufferLength
    ensures ApplyRects(s, [q]) == FillRect(s, q.x, q.y, q.w, q.h, q.color)
  {
    ApplyRectsCons(s, q, []);
  }

  /** One pass of the rasterizer's inner loop: draw the cell for the low bit, then go on
      with the shifted line. */
  lemma CellStep(s: Lcd, x: U32, y: U32, size: U32, i: nat, line: bv8, j: nat, color: bv16, bg: bv16)
    requires |s.buffer| == BufferLength && j < 8
    ensures ApplyRects(s, RowRects(x, y, size, i, line, j, color, bg))
         == ApplyRects(ApplyRects(s, CellFor(x, y, size, i, j, line & 1 == 1, color, bg)), RowRects(x, y, size, i, line >> 1, j + 1, color, bg))
  {
    RowStep(x, y, size, i, line, j, color, bg);
    ApplyRectsAppend(s, CellFor(x, y, size, i, j, line & 1 == 1, color, bg), RowRects(x, y, size, i, line >> 1, j + 1, color, bg));
  }

  /** One pass of the rasterizer's outer loop: column i, then the columns right of it. */
  lemma ColumnStep(s: Lcd, x: U32, y: U32, size: U32, cols: seq<bv8>, i: nat, color: bv16, bg: bv16)
    requires |s.buffer| == BufferLength && |cols| == 5 && i < 5
    ensures |ApplyRects(s, RowRects(x, y, size, i, cols[i], 0, color, bg)).buffer| == BufferLength
    ensures ApplyRects(s, ColumnRects(x, y, size, cols, i, color, bg))
         == ApplyRects(ApplyRects(s, RowRects(x, y, size, i, cols[i], 0, color, bg)), ColumnRects(x, y, size, cols, i + 1, color, bg))
  {
    ApplyRectsAppend(s, RowRects(x, y, size, i, cols[i], 0, color, bg), ColumnRects(x, y, size, cols, i + 1, color, bg));
  }

  /** One pass of displayPrintln's loop, as the method takes it: the wrap test, then
      drawChar at the place. */
  lemma StepOf(p: Pen, w: Pen, font: seq<bv8>, c: bv8, color: bv16, bg: bv16, size: U32)
    requires |p.bus.buffer| == BufferLength && |font| == FontLength && w == Wrap(p, size)
    ensures var r := Layout.DrawChar(w.bus, w.dec, font, Place(p, size).0, Place(p, size).1, c, color, bg, size);
            PrintStep(p, font, c, color, bg, size) == Pen(r.bus, r.dec, w.x, w.y, if r.drawn then w.tp + 1 else w.tp)
  {
  }
}
