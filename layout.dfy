/** The text layer of the driver: drawChar as the UTF-8 decoder followed by the rasterizer,
    and displayPrintln's cursor, which moves one 6 * size cell right per drawn glyph and
    wraps to a new line once it reaches column 234. */
module Layout {
  import opened Bus
  import opened Decoder
  import opened Raster

  /** What one drawChar call leaves behind: the bus, the decoder globals and its return value. */
  datatype CharResult = CharResult(bus: Lcd, dec: Decoder, drawn: bool)

  /** The displayRect calls drawChar makes for byte c in decoder state d: the cells and the
      spacing of the slot that comes out, or none. */
  function CharRects(d: Decoder, font: seq<bv8>, x: U32, y: U32, c: bv8, color: bv16, bg: bv16, size: U32): seq<Rect>
    requires |font| == FontLength
  {
    match DecodeStep(d, c).glyph
    case None => []
    case Some(g) => GlyphRects(x, y, size, FontColumns(font, g), color, bg)
  }

  /** drawChar(x, y, c, color, bg, size) (lines 29-188). */
  function DrawChar(s: Lcd, d: Decoder, font: seq<bv8>, x: U32, y: U32, c: bv8, color: bv16, bg: bv16, size: U32): (r: CharResult)
    requires |s.buffer| == BufferLength && |font| == FontLength
    ensures |r.bus.buffer| == BufferLength
    ensures !r.drawn ==> r.bus == s
  {
    var st := DecodeStep(d, c);
    CharResult(ApplyRects(s, CharRects(d, font, x, y, c, color, bg, size)), st.next, st.glyph.Some?)
  }

  /** drawChar returns true exactly when the decoder yields a slot; otherwise it leaves the
      bus, the window and the buffer untouched.  When it draws, it appends one transaction
      per cell and the bus is released after each. */
  lemma DrawCharSends(s: Lcd, d: Decoder, font: seq<bv8>, x: U32, y: U32, c: bv8, color: bv16, bg: bv16, size: U32)
    requires |s.buffer| == BufferLength && |font| == FontLength
    ensures DrawChar(s, d, font, x, y, c, color, bg, size).dec == DecodeStep(d, c).next
    ensures DrawChar(s, d, font, x, y, c, color, bg, size).drawn <==> DecodeStep(d, c).glyph.Some?
    ensures !DrawChar(s, d, font, x, y, c, color, bg, size).drawn ==> DrawChar(s, d, font, x, y, c, color, bg, size).bus == s
    ensures DrawChar(s, d, font, x, y, c, color, bg, size).bus.trace
         == s.trace + RectsEvents(CharRects(d, font, x, y, c, color, bg, size))
    ensures Balanced(RectsEvents(CharRects(d, font, x, y, c, color, bg, size)), false)
  {
    ApplyRectsSends(s, CharRects(d, font, x, y, c, color, bg, size));
  }

  /** The loop variables of displayPrintln: the bus and decoder as drawChar leaves them, the
      x and y parameters as the wrap rewrites them, and tempPosition. */
  datatype Pen = Pen(bus: Lcd, dec: Decoder, x: U32, y: U32, tp: nat)

  /** The column at which the wrap test of displayPrintln fires. */
  const WrapColumn: nat := 234

  /** `x + tempPosition * 6 * size` in uint32 arithmetic. */
  function Cursor(x: U32, tp: nat, size: U32): U32
  {
    Wrap32(x + tp * 6 * size)
  }

  /** The wrap test of lines 194-197, made before every byte: `x` is set so that the cursor
      is column 0, and `y` moves down by one 8 * size line. */
  function Wrap(p: Pen, size: U32): Pen
  {
    if Cursor(p.x, p.tp, size) >= WrapColumn then
      p.(x := Wrap32(-(p.tp * 6 * size)), y := Wrap32(p.y + 8 * size))
    else p
  }

  /** Where drawChar is called for the next byte. */
  function Place(p: Pen, size: U32): (U32, U32)
  {
    var w := Wrap(p, size);
    (Cursor(w.x, w.tp, size), w.y)
  }

  /** One pass of displayPrintln's loop (lines 194-200). */
  function PrintStep(p: Pen, font: seq<bv8>, c: bv8, color: bv16, bg: bv16, size: U32): (r: Pen)
    requires |p.bus.buffer| == BufferLength && |font| == FontLength
    ensures |r.bus.buffer| == BufferLength
    ensures r.tp == p.tp || r.tp == p.tp + 1
  {
    var w := Wrap(p, size);
    var at := Place(p, size);
    var r := DrawChar(w.bus, w.dec, font, at.0, at.1, c, color, bg, size);
    Pen(r.bus, r.dec, w.x, w.y, if r.drawn then w.tp + 1 else w.tp)
  }

  /** The loop of displayPrintln over the bytes of text, from the state p. */
  function Print(p: Pen, font: seq<bv8>, text: seq<bv8>, color: bv16, bg: bv16, size: U32): (r: Pen)
    requires |p.bus.buffer| == BufferLength && |font| == FontLength
    ensures |r.bus.buffer| == BufferLength
    ensures p.tp <= r.tp <= p.tp + |text|
    decreases |text|
  {
    if text == [] then p
    else
      var n := |text| - 1;
      PrintStep(Print(p, font, text[..n], color, bg, size), font, text[n], color, bg, size)
  }

  /** displayPrintln(x, y, text, color, bg, size) (lines 190-202): tempPosition starts at 0. */
  function Println(s: Lcd, d: Decoder, font: seq<bv8>, x: U32, y: U32, text: seq<bv8>, color: bv16, bg: bv16, size: U32): (r: Pen)
    requires |s.buffer| == BufferLength && |font| == FontLength
    ensures r.tp <= |text|
  {
    Print(Pen(s, d, x, y, 0), font, text, color, bg, size)
  }

  /** Where displayPrintln stands between two bytes, without the bus: the decoder globals,
      the cursor column `x + tempPosition * 6 * size` and the line y. */
  datatype Caret = Caret(dec: Decoder, col: U32, y: U32)

  function CaretOf(p: Pen, size: U32): Caret
  {
    Caret(p.dec, Cursor(p.x, p.tp, size), p.y)
  }

  /** A line as a reader sees it: the next glyph goes at the cursor, or at column 0 one
      8 * size line lower once the cursor has reached column 234. */
  function Spot(k: Caret, size: U32): (U32, U32)
  {
    if k.col >= WrapColumn then (0, Wrap32(k.y + 8 * size)) else (k.col, k.y)
  }

  /** The caret after one byte: the decoder steps, and a glyph that comes out moves the
      cursor one 6 * size cell right of its spot. */
  function Advance(k: Caret, c: bv8, size: U32): Caret
  {
    var at := Spot(k, size);
    var st := DecodeStep(k.dec, c);
    Caret(st.next, if st.glyph.Some? then Wrap32(at.0 + 6 * size) else at.0, at.1)
  }

  /** The caret after every byte of text. */
  function Walk(k: Caret, text: seq<bv8>, size: U32): Caret
    decreases |text|
  {
    if text == [] then k
    else Advance(Walk(k, text[..|text| - 1], size), text[|text| - 1], size)
  }

  /** Every displayRect call of a line, byte by byte, each glyph at the spot of its caret. */
  function LineRects(k: Caret, font: seq<bv8>, text: seq<bv8>, color: bv16, bg: bv16, size: U32): seq<Rect>
    requires |font| == FontLength
    decreases |text|
  {
    if text == [] then []
    else
      var n := |text| - 1;
      var q := Walk(k, text[..n], size);
      var at := Spot(q, size);
      LineRects(k, font, text[..n], color, bg, size) + CharRects(q.dec, font, at.0, at.1, text[n], color, bg, size)
  }

  /** uint32 addition can be reduced at any point. */
  lemma WrapAdd(a: int, b: int)
    ensures Wrap32(Wrap32(a) + b) == Wrap32(a + b)
  {
    var m := 0x1_0000_0000;
    var q := a / m;
    assert a == q * m + Wrap32(a);
    assert a + b == q * m + (Wrap32(a) + b);
  }

  /** Setting x to `-(tempPosition * 6 * size)` puts the cursor at column 0. */
  lemma WrapCancel(x: int, n: int)
    requires x == Wrap32(-n)
    ensures Wrap32(x + n) == 0
  {
    WrapAdd(-n, n);
  }

  /** drawChar is always called left of column 234: at the cursor when it has not reached
      234, and at column 0 one line lower when it has. */
  lemma PlaceOnLine(p: Pen, size: U32)
    ensures Place(p, size).0 < WrapColumn
    ensures Cursor(p.x, p.tp, size) < WrapColumn ==> Place(p, size) == (Cursor(p.x, p.tp, size), p.y)
    ensures Cursor(p.x, p.tp, size) >= WrapColumn ==> Place(p, size) == (0, Wrap32(p.y + 8 * size))
  {
    if Cursor(p.x, p.tp, size) >= WrapColumn {
      var n := p.tp * 6 * size;
      WrapCancel(Wrap32(-n), n);
    }
  }

  /** One pass steps the decoder, counts a drawn glyph in tempPosition, and moves the cursor
      one 6 * size cell right of the place it drew at; a byte that draws nothing leaves the
      cursor where the wrap test put it. */
  lemma PrintStepAdvance(p: Pen, font: seq<bv8>, c: bv8, color: bv16, bg: bv16, size: U32)
    requires |p.bus.buffer| == BufferLength && |font| == FontLength
    ensures PrintStep(p, font, c, color, bg, size).dec == DecodeStep(p.dec, c).next
    ensures PrintStep(p, font, c, color, bg, size).tp == if DecodeStep(p.dec, c).glyph.Some? then p.tp + 1 else p.tp
    ensures PrintStep(p, font, c, color, bg, size).y == Place(p, size).1
    ensures Cursor(PrintStep(p, font, c, color, bg, size).x, PrintStep(p, font, c, color, bg, size).tp, size)
         == if DecodeStep(p.dec, c).glyph.Some? then Wrap32(Place(p, size).0 + 6 * size) else Place(p, size).0
  {
    var w := Wrap(p, size);
    var r := PrintStep(p, font, c, color, bg, size);
    assert r.x == w.x && r.y == w.y && Place(p, size) == (Cursor(w.x, p.tp, size), w.y);
    if DecodeStep(p.dec, c).glyph.Some? {
      assert r.tp == p.tp + 1;
      CursorNext(w.x, p.tp, size);
    } else {
      assert r.tp == p.tp;
    }
  }

  /** One more glyph moves the cursor 6 * size to the right, in uint32 arithmetic. */
  lemma CursorNext(x: U32, tp: nat, size: U32)
    ensures Cursor(x, tp + 1, size) == Wrap32(Cursor(x, tp, size) + 6 * size)
  {
    var n := tp * 6 * size;
    assert (tp + 1) * 6 * size == n + 6 * size;
    WrapAdd(x + n, 6 * size);
  }

  lemma DecodeOne(d: Decoder, c: bv8)
    ensures DecodeRun(d, [c]) == Run([DecodeStep(d, c).glyph], DecodeStep(d, c).next)
  {
    assert [c][1..] == [];
  }

  /** Decoding one more byte appends that byte's outcome. */
  lemma DecodeRunSnoc(d: Decoder, pre: seq<bv8>, c: bv8)
    ensures DecodeRun(d, pre + [c]).outs
         == DecodeRun(d, pre).outs + [DecodeStep(DecodeRun(d, pre).final, c).glyph]
    ensures DecodeRun(d, pre + [c]).final == DecodeStep(DecodeRun(d, pre).final, c).next
  {
    DecodeRunAppend(d, pre, [c]);
    DecodeOne(DecodeRun(d, pre).final, c);
  }

  lemma GlyphsSnoc(outs: seq<Option<bv8>>, o: Option<bv8>)
    ensures |Glyphs(outs + [o])| == |Glyphs(outs)| + if o.Some? then 1 else 0
  {
    GlyphsAppend(outs, [o]);
    assert [o][1..] == [];
  }

  lemma PrintUnfold(p: Pen, font: seq<bv8>, text: seq<bv8>, color: bv16, bg: bv16, size: U32)
    requires |p.bus.buffer| == BufferLength && |font| == FontLength && text != []
    ensures Print(p, font, text, color, bg, size)
         == PrintStep(Print(p, font, text[..|text| - 1], color, bg, size), font, text[|text| - 1], color, bg, size)
  {
  }

  /** displayPrintln runs the decoder over the whole text: it leaves the decoder state that
      decoding the text leaves, and tempPosition counts exactly the slots decoded. */
  lemma {:induction false} PrintDecodes(p: Pen, font: seq<bv8>, text: seq<bv8>, color: bv16, bg: bv16, size: U32)
    requires |p.bus.buffer| == BufferLength && |font| == FontLength
    ensures Print(p, font, text, color, bg, size).dec == DecodeRun(p.dec, text).final
    ensures Print(p, font, text, color, bg, size).tp == p.tp + |Glyphs(DecodeRun(p.dec, text).outs)|
    decreases |text|
  {
    if text != [] {
      var n := |text| - 1;
      var pre := text[..n];
      var c := text[n];
      var q := Print(p, font, pre, color, bg, size);
      PrintDecodes(p, font, pre, color, bg, size);
      PrintUnfold(p, font, text, color, bg, size);
      PrintStepAdvance(q, font, c, color, bg, size);
      FrontLast(text);
      DecodeRunSnoc(p.dec, pre, c);
      GlyphsSnoc(DecodeRun(p.dec, pre).outs, DecodeStep(q.dec, c).glyph);
    }
  }

  lemma {:induction false} GlyphsAllSome(outs: seq<Option<bv8>>)
    requires forall k :: 0 <= k < |outs| ==> outs[k].Some?
    ensures |Glyphs(outs)| == |outs|
  {
    if outs != [] {
      GlyphsAllSome(outs[1..]);
    }
  }

  /** A line of printable ASCII draws every byte: tempPosition ends at the text's length
      and the decoder state, pending lead included, is left as it was. */
  lemma PrintAscii(p: Pen, font: seq<bv8>, text: seq<bv8>, color: bv16, bg: bv16, size: U32)
    requires |p.bus.buffer| == BufferLength && |font| == FontLength
    requires forall k :: 0 <= k < |text| ==> 32 <= text[k] < 127
    ensures Print(p, font, text, color, bg, size).tp == p.tp + |text|
    ensures Print(p, font, text, color, bg, size).dec == p.dec
  {
    PrintDecodes(p, font, text, color, bg, size);
    AsciiPassesThrough(p.dec, text);
    GlyphsAllSome(DecodeRun(p.dec, text).outs);
  }

  lemma PrintStepBus(p: Pen, font: seq<bv8>, c: bv8, color: bv16, bg: bv16, size: U32)
    requires |p.bus.buffer| == BufferLength && |font| == FontLength
    ensures PrintStep(p, font, c, color, bg, size).bus
         == ApplyRects(p.bus, CharRects(p.dec, font, Place(p, size).0, Place(p, size).1, c, color, bg, size))
  {
  }

  /** One pass of the loop draws at the caret's spot and moves the caret as Advance does. */
  lemma StepCaret(p: Pen, font: seq<bv8>, c: bv8, color: bv16, bg: bv16, size: U32)
    requires |p.bus.buffer| == BufferLength && |font| == FontLength
    ensures Place(p, size) == Spot(CaretOf(p, size), size)
    ensures CaretOf(PrintStep(p, font, c, color, bg, size), size) == Advance(CaretOf(p, size), c, size)
  {
    PlaceOnLine(p, size);
    PrintStepAdvance(p, font, c, color, bg, size);
    CaretAfter(p, PrintStep(p, font, c, color, bg, size), c, size);
  }

  lemma CaretAfter(p: Pen, r: Pen, c: bv8, size: U32)
    requires Place(p, size) == Spot(CaretOf(p, size), size)
    requires r.dec == DecodeStep(p.dec, c).next && r.y == Place(p, size).1
    requires Cursor(r.x, r.tp, size) == if DecodeStep(p.dec, c).glyph.Some? then Wrap32(Place(p, size).0 + 6 * size) else Place(p, size).0
    ensures CaretOf(r, size) == Advance(CaretOf(p, size), c, size)
  {
  }

  /** The loop of displayPrintln keeps decoder, cursor and line exactly where the caret
      walk over the same bytes puts them. */
  lemma {:induction false} PrintWalks(p: Pen, font: seq<bv8>, text: seq<bv8>, color: bv16, bg: bv16, size: U32)
    requires |p.bus.buffer| == BufferLength && |font| == FontLength
    ensures CaretOf(Print(p, font, text, color, bg, size), size) == Walk(CaretOf(p, size), text, size)
    decreases |text|
  {
    if text != [] {
      var n := |text| - 1;
      var q := Print(p, font, text[..n], color, bg, size);
      PrintWalks(p, font, text[..n], color, bg, size);
      PrintUnfold(p, font, text, color, bg, size);
      StepCaret(q, font, text[n], color, bg, size);
    }
  }

  /** A line is the glyphs of its bytes drawn one after the other, each at the spot the
      caret walk gives it: the bus after displayPrintln is that run of displayRect calls,
      one transaction each. */
  lemma {:induction false} PrintSends(p: Pen, font: seq<bv8>, text: seq<bv8>, color: bv16, bg: bv16, size: U32)
    requires |p.bus.buffer| == BufferLength && |font| == FontLength
    ensures Print(p, font, text, color, bg, size).bus == ApplyRects(p.bus, LineRects(CaretOf(p, size), font, text, color, bg, size))
    ensures Print(p, font, text, color, bg, size).bus.trace == p.bus.trace + RectsEvents(LineRects(CaretOf(p, size), font, text, color, bg, size))
    ensures Balanced(RectsEvents(LineRects(CaretOf(p, size), font, text, color, bg, size)), false)
    decreases |text|
  {
    var k := CaretOf(p, size);
    if text != [] {
      var n := |text| - 1;
      var pre := text[..n];
      var q := Print(p, font, pre, color, bg, size);
      var at := Place(q, size);
      var glyph := CharRects(q.dec, font, at.0, at.1, text[n], color, bg, size);
      PrintSends(p, font, pre, color, bg, size);
      PrintWalks(p, font, pre, color, bg, size);
      StepCaret(q, font, text[n], color, bg, size);
      assert LineRects(k, font, text, color, bg, size) == LineRects(k, font, pre, color, bg, size) + glyph;
      PrintUnfold(p, font, text, color, bg, size);
      PrintStepBus(q, font, text[n], color, bg, size);
      ApplyRectsAppend(p.bus, LineRects(k, font, pre, color, bg, size), glyph);
    }
    ApplyRectsSends(p.bus, LineRects(k, font, text, color, bg, size));
  }
}
