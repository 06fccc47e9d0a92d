/** The controller protocol: what each public drawing call of display.cpp puts on the bus
    between one startWrite and one endWrite, and what it leaves in the driver's globals. */
module Protocol {
  import opened Bus
  import opened Streamer

  /** The panel is 240 x 240 pixels. */
  const PanelSize: nat := 240

  /** Column-address-set, row-address-set and memory-write, with their parameters: the
      high bytes 0, the low bytes the C truncations of the start and of start + size - 1. */
  function WindowEvents(x: U32, y: U32, w: U32, h: U32): seq<Event>
  {
    [Cmd(0x2A), Data([0x00, Byte(x), 0x00, Byte(Wrap32(x + w - 1))]),
     Cmd(0x2B), Data([0x00, Byte(y), 0x00, Byte(Wrap32(y + h - 1))]),
     Cmd(0x2C)]
  }

  /** setAddrWindowDisplay (lines 256-273): emits the window and records its pixel count. */
  function SetWindow(s: Lcd, x: U32, y: U32, w: U32, h: U32): (r: Lcd)
    ensures r.buffer == s.buffer
    ensures |r.trace| == |s.trace| + 5 && r.trace[..|s.trace|] == s.trace
    ensures 1 <= w && x + w <= PanelSize && 1 <= h && y + h <= PanelSize ==> r.window == w * h
  {
    assert w <= PanelSize && h <= PanelSize ==> Wrap32(w * h) == w * h by {
      if w <= PanelSize && h <= PanelSize { SmallProduct(w, h); }
    }
    s.(trace := s.trace + WindowEvents(x, y, w, h), window := Wrap32(w * h))
  }

  /** How the controller reads an address-set parameter block: a 16-bit big-endian start
      and a 16-bit big-endian end. */
  function AddressRange(params: seq<bv8>): (nat, nat)
    requires |params| == 4
  {
    (params[0] as nat * 256 + params[1] as nat, params[2] as nat * 256 + params[3] as nat)
  }

  /** For a window on the panel, the controller is addressed exactly with the window's
      columns and rows, and the driver records its pixel count. */
  lemma WindowAddressesPanel(s: Lcd, x: U32, y: U32, w: U32, h: U32)
    requires 1 <= w && x + w <= PanelSize && 1 <= h && y + h <= PanelSize
    ensures AddressRange(WindowEvents(x, y, w, h)[1].bytes) == (x, x + w - 1)
    ensures AddressRange(WindowEvents(x, y, w, h)[3].bytes) == (y, y + h - 1)
    ensures SetWindow(s, x, y, w, h).window == w * h
  {
    AddressOnPanel(x, w);
    AddressOnPanel(y, h);
    SmallProduct(w, h);
  }

  /** One address-set parameter block for a start and a size on the panel. */
  lemma AddressOnPanel(a: U32, n: U32)
    requires 1 <= n && a + n <= PanelSize
    ensures AddressRange([0x00, Byte(a), 0x00, Byte(Wrap32(a + n - 1))]) == (a, a + n - 1)
  {
    assert Wrap32(a + n - 1) == a + n - 1;
    ByteOnPanel(a);
    ByteOnPanel(a + n - 1);
  }

  lemma ByteOnPanel(n: nat)
    requires n < 256
    ensures Byte(n) as nat == n
  {
    assert n % 256 == n;
  }

  lemma SmallProduct(w: nat, h: nat)
    requires w <= PanelSize && h <= PanelSize
    ensures Wrap32(w * h) == w * h
  {
    assert w * h <= PanelSize * h <= PanelSize * PanelSize;
  }

  /** The bytes a window's pixels take on the bus: `widthheigthWindow * 2` with both
      products in uint32 arithmetic. */
  function PixelBytes(w: U32, h: U32): U32
  {
    FillBytes(Wrap32(w * h))
  }

  /** A stream is never longer than two bytes per pixel of its window, is always of even
      length, and is exactly that long when the pixel count stays below 2^31. */
  lemma PixelBytesBound(w: U32, h: U32)
    ensures PixelBytes(w, h) <= 2 * w * h
    ensures PixelBytes(w, h) % 2 == 0
    ensures w * h < 0x8000_0000 ==> PixelBytes(w, h) == 2 * w * h
  {
    var p := w * h;
    assert 0 <= p;
    assert 2 * w * h == 2 * p;
    FillBytesBound(p);
  }

  lemma FillBytesBound(p: nat)
    ensures FillBytes(Wrap32(p)) <= 2 * p
    ensures FillBytes(Wrap32(p)) % 2 == 0
    ensures p < 0x8000_0000 ==> FillBytes(Wrap32(p)) == 2 * p
  {
    var a := Wrap32(p);
    assert a <= p;
    assert FillBytes(a) == (2 * a) % 0x1_0000_0000;
  }

  /** displayRect (lines 204-209): one transaction that sets the window and fills it. */
  function FillRect(s: Lcd, x: U32, y: U32, w: U32, h: U32, color: bv16): (r: Lcd)
    requires |s.buffer| == BufferLength
    ensures |r.buffer| == BufferLength && r.window == Wrap32(w * h)
    ensures |r.trace| > |s.trace| + 1 && r.trace[..|s.trace|] == s.trace
    ensures r.trace[|s.trace|] == Begin && r.trace[|r.trace| - 1] == End
  {
    ScriptedFill(s, [], x, y, w, h, color)
  }

  function RectEvents(x: U32, y: U32, w: U32, h: U32, color: bv16): seq<Event>
  {
    [Begin] + WindowEvents(x, y, w, h) + FillChunks(PixelBytes(w, h), color) + [End]
  }

  lemma WindowUnframed(x: U32, y: U32, w: U32, h: U32)
    ensures Unframed(WindowEvents(x, y, w, h))
  {
  }

  /** The window is set by column-address-set, row-address-set and memory-write. */
  lemma WindowCommands(x: U32, y: U32, w: U32, h: U32)
    ensures Commands(WindowEvents(x, y, w, h)) == [0x2A, 0x2B, 0x2C]
  {
    var t := WindowEvents(x, y, w, h);
    assert t[5..] == [];
    assert Commands(t[4..]) == [0x2C];
    assert Commands(t[3..]) == [0x2C];
    assert Commands(t[2..]) == [0x2B, 0x2C];
    assert Commands(t[1..]) == [0x2B, 0x2C];
  }

  lemma {:induction false} DataOnlyUnframed(t: seq<Event>)
    requires DataOnly(t)
    ensures Unframed(t)
    ensures Commands(t) == []
  {
    if t != [] {
      DataOnlyUnframed(t[1..]);
    }
  }

  lemma {:induction false} BracketIsTransaction(mid: seq<Event>)
    requires Unframed(mid)
    ensures Transaction([Begin] + mid + [End])
  {
    var t := [Begin] + mid + [End];
    assert t[1..|t| - 1] == mid;
  }

  lemma UnframedAppend(a: seq<Event>, b: seq<Event>)
    requires Unframed(a) && Unframed(b)
    ensures Unframed(a + b)
  {
    forall k | 0 <= k < |a + b| ensures !(a + b)[k].Begin? && !(a + b)[k].End? {
      if k >= |a| { assert (a + b)[k] == b[k - |a|]; }
    }
  }

  /** displayRect appends one transaction: the window, then the colour pattern for every
      pixel of it in chunks of at most LCD_BUFFER_SIZE; it records the window's pixel count. */
  lemma FillRectSends(s: Lcd, x: U32, y: U32, w: U32, h: U32, color: bv16)
    requires |s.buffer| == BufferLength
    ensures FillRect(s, x, y, w, h, color).trace == s.trace + RectEvents(x, y, w, h, color)
    ensures FillRect(s, x, y, w, h, color).window == Wrap32(w * h)
    ensures |FillRect(s, x, y, w, h, color).buffer| == BufferLength
    ensures Transaction(RectEvents(x, y, w, h, color))
  {
    ScriptedFillSends(s, [], x, y, w, h, color);
    assert [Begin] + [] == [Begin];
  }

  /** What a rectangle sends: the three window commands, then the colour pattern of its
      byte count, in chunks that obey the chunk-size rule. */
  lemma RectStream(x: U32, y: U32, w: U32, h: U32, color: bv16)
    ensures Commands(RectEvents(x, y, w, h, color)) == [0x2A, 0x2B, 0x2C]
    ensures Payload(FillChunks(PixelBytes(w, h), color)) == Pattern(color, PixelBytes(w, h))
    ensures Chunked(FillChunks(PixelBytes(w, h), color), PixelBytes(w, h))
  {
    var win := WindowEvents(x, y, w, h);
    var fill := FillChunks(PixelBytes(w, h), color);
    FillChunksChunked(PixelBytes(w, h), color);
    FillChunksPayload(PixelBytes(w, h), color);
    WindowCommands(x, y, w, h);
    DataOnlyUnframed(fill);
    CommandsAppend([Begin] + win, fill + [End]);
    CommandsAppend([Begin], win);
    CommandsAppend(fill, [End]);
    assert Commands([Begin]) == [] && Commands([End]) == [] by {
      assert [Begin][1..] == [] && [End][1..] == [];
    }
    assert RectEvents(x, y, w, h, color) == ([Begin] + win) + (fill + [End]);
  }

  /** displayImage (lines 211-234): one transaction that sets the window and streams the
      caller's pixels through the buffer.  `bufferPos` starts at 0. */
  function DrawImage(s: Lcd, x: U32, y: U32, w: U32, h: U32, image: seq<bv16>): (r: Lcd)
    requires |s.buffer| == BufferLength && PixelBytes(w, h) / 2 <= |image|
    ensures |r.buffer| == BufferLength && r.window == Wrap32(w * h)
    ensures |r.trace| > |s.trace| + 1 && r.trace[..|s.trace|] == s.trace
    ensures r.trace[|s.trace|] == Begin && r.trace[|r.trace| - 1] == End
  {
    PixelBytesBound(w, h);
    var s1 := SetWindow(s.(trace := s.trace + [Begin]), x, y, w, h);
    var s2 := ImageFrom(s1, image, PixelBytes(w, h), 0);
    s2.(trace := s2.trace + [End])
  }

  /** displayImage appends one transaction: the window, then the reference image chunks; it
      records the window's pixel count. */
  lemma DrawImageSends(s: Lcd, x: U32, y: U32, w: U32, h: U32, image: seq<bv16>)
    requires |s.buffer| == BufferLength && PixelBytes(w, h) / 2 <= |image|
    ensures PixelBytes(w, h) % 2 == 0
    ensures DrawImage(s, x, y, w, h, image).trace
         == s.trace + [Begin] + WindowEvents(x, y, w, h) + ImageChunks(image, PixelBytes(w, h), 0) + [End]
    ensures DrawImage(s, x, y, w, h, image).window == Wrap32(w * h)
    ensures |DrawImage(s, x, y, w, h, image).buffer| == BufferLength
  {
    PixelBytesBound(w, h);
    var s1 := SetWindow(s.(trace := s.trace + [Begin]), x, y, w, h);
    ImageFromSends(s1, image, PixelBytes(w, h), 0);
  }

  /** The pixel stream of displayImage: chunks that obey the chunk-size rule and concatenate
      to the big-endian bytes of the first `w * h` pixels (fewer only when the uint32 byte
      count wraps), read from nowhere else in the source buffer. */
  lemma ImageStream(w: U32, h: U32, image: seq<bv16>)
    requires PixelBytes(w, h) / 2 <= |image|
    ensures PixelBytes(w, h) % 2 == 0 && PixelBytes(w, h) / 2 <= w * h
    ensures Payload(ImageChunks(image, PixelBytes(w, h), 0)) == BigEndian(image[..PixelBytes(w, h) / 2])
    ensures Chunked(ImageChunks(image, PixelBytes(w, h), 0), PixelBytes(w, h))
  {
    PixelBytesBound(w, h);
    HalfPixelBytes(w, h);
    ImageBytesStream(PixelBytes(w, h), image);
  }

  lemma HalfPixelBytes(w: U32, h: U32)
    ensures PixelBytes(w, h) / 2 <= w * h
  {
    PixelBytesBound(w, h);
    var m := w * h;
    assert PixelBytes(w, h) <= 2 * m;
  }

  lemma ImageBytesStream(n: nat, image: seq<bv16>)
    requires n % 2 == 0 && n / 2 <= |image|
    ensures Payload(ImageChunks(image, n, 0)) == BigEndian(image[..n / 2])
    ensures Chunked(ImageChunks(image, n, 0), n)
  {
    ImageChunksPayload(image, n, 0);
    ChunkIsBigEndian(image, 0, n);
    assert image[0 / 2..n / 2] == image[..n / 2];
    ImageChunksChunked(image, n, 0);
  }

  /** The ST77XX opcodes display_enable uses; their values live in a header that is not part
      of this model. */
  datatype Opcodes = Opcodes(dispOn: bv8, slpOut: bv8, slpIn: bv8, dispOff: bv8)

  /** display_enable (lines 236-247). */
  function EnableEvents(ops: Opcodes, on: bool): seq<Event>
  {
    if on then [Begin, Cmd(ops.dispOn), Cmd(ops.slpOut), End]
    else [Begin, Cmd(ops.slpIn), Cmd(ops.dispOff), End]
  }

  /** Switching on sends display-on then sleep-out, switching off sleep-in then display-off,
      each as one transaction with no data. */
  lemma EnableSends(ops: Opcodes, on: bool)
    ensures Transaction(EnableEvents(ops, on))
    ensures Commands(EnableEvents(ops, on)) == if on then [ops.dispOn, ops.slpOut] else [ops.slpIn, ops.dispOff]
    ensures Payload(EnableEvents(ops, on)) == []
  {
    var t := EnableEvents(ops, on);
    assert t[4..] == [];
    assert Commands(t[3..]) == [] && Payload(t[3..]) == [];
    assert Commands(t[2..]) == [t[2].op] && Payload(t[2..]) == [];
    assert Commands(t[1..]) == [t[1].op, t[2].op] && Payload(t[1..]) == [];
  }

  /** The controller's power state: out of sleep, and showing the frame memory. */
  datatype Power = Power(awake: bool, shown: bool)

  /** The four opcodes are four different commands. */
  predicate Distinct(ops: Opcodes)
  {
    && ops.dispOn != ops.slpOut && ops.dispOn != ops.slpIn && ops.dispOn != ops.dispOff
    && ops.slpOut != ops.slpIn && ops.slpOut != ops.dispOff && ops.slpIn != ops.dispOff
  }

  /** How the controller reacts to one command: sleep-in and sleep-out set the sleep mode,
      display-on and display-off the output; any other command leaves both alone. */
  function Obey(ops: Opcodes, p: Power, op: bv8): Power
  {
    if op == ops.slpOut then p.(awake := true)
    else if op == ops.slpIn then p.(awake := false)
    else if op == ops.dispOn then p.(shown := true)
    else if op == ops.dispOff then p.(shown := false)
    else p
  }

  function ObeyAll(ops: Opcodes, p: Power, cmds: seq<bv8>): Power
    decreases |cmds|
  {
    if cmds == [] then p else ObeyAll(ops, Obey(ops, p, cmds[0]), cmds[1..])
  }

  /** Whatever state the controller was in, display_enable(true) leaves it awake and
      showing, and display_enable(false) asleep and dark. */
  lemma EnablePowers(ops: Opcodes, p: Power, on: bool)
    requires Distinct(ops)
    ensures ObeyAll(ops, p, Commands(EnableEvents(ops, on))) == Power(on, on)
  {
    EnableSends(ops, on);
    var cmds := Commands(EnableEvents(ops, on));
    var p1 := Obey(ops, p, cmds[0]);
    var p2 := Obey(ops, p1, cmds[1]);
    assert cmds[1..][1..] == [];
    assert ObeyAll(ops, p, cmds) == ObeyAll(ops, p1, cmds[1..]) == ObeyAll(ops, p2, []);
    assert p2 == Power(on, on);
  }

  /** One register write of the controller: a command byte, then the parameter writes
      that follow it, each one call of the byte writer. */
  datatype Register = Register(op: bv8, writes: seq<seq<bv8>>)

  /** The register script of initDisplay (lines 292-373), write for write as the calls
      emit it: command 54 gets spiWrite(0) and a one-byte buffer write, command 178 gets five
      spiWrite calls and then the same five bytes as one buffer write. */
  function InitRegisters(): seq<Register>
  {
    [Register(54, [[0], [0]]),
     Register(58, [[5]]),
     Register(178, [[12], [12], [0], [51], [51], [12, 12, 0, 51, 51]]),
     Register(183, [[53]]),
     Register(187, [[25]]),
     Register(192, [[44]]),
     Register(194, [[1]]),
     Register(195, [[18]]),
     Register(196, [[32]]),
     Register(198, [[15]]),
     Register(208, [[164, 161]]),
     Register(224, [[208, 4, 13, 17, 19, 43, 63, 84, 76, 24, 13, 11, 31, 35]]),
     Register(225, [[208, 4, 12, 17, 19, 44, 63, 68, 81, 47, 31, 31, 32, 35]]),
     Register(33, []), Register(17, []), Register(41, []), Register(0x11, []), Register(0x29, [])]
  }

  function DataEvents(writes: seq<seq<bv8>>): (t: seq<Event>)
    ensures |t| == |writes|
  {
    seq(|writes|, k requires 0 <= k < |writes| => Data(writes[k]))
  }

  /** The trace a register script puts on the bus. */
  function Emit(regs: seq<Register>): seq<Event>
  {
    if regs == [] then [] else [Cmd(regs[0].op)] + DataEvents(regs[0].writes) + Emit(regs[1..])
  }

  /** Register k of a script, sent after a trace tk: what is left to send shrinks by it. */
  lemma RegisterSent(regs: seq<Register>, k: nat, tk: seq<Event>, t: seq<Event>)
    requires k < |regs| && t == tk + [Cmd(regs[k].op)] + DataEvents(regs[k].writes)
    ensures t + Emit(regs[k + 1..]) == tk + Emit(regs[k..])
  {
    assert regs[k..][0] == regs[k] && regs[k..][1..] == regs[k + 1..];
    var head := [Cmd(regs[k].op)] + DataEvents(regs[k].writes);
    AppendAssoc(tk, head, Emit(regs[k + 1..]));
  }

  /** One more parameter write adds one Data event. */
  lemma DataEventsSnoc(writes: seq<seq<bv8>>, n: nat)
    requires n < |writes|
    ensures DataEvents(writes[..n + 1]) == DataEvents(writes[..n]) + [Data(writes[n])]
  {
  }

  lemma {:induction false} EmitAppend(a: seq<Register>, b: seq<Register>)
    ensures Emit(a + b) == Emit(a) + Emit(b)
  {
    if a == [] {
      assert a + b == b;
    } else {
      assert (a + b)[0] == a[0];
      assert (a + b)[1..] == a[1..] + b;
      EmitAppend(a[1..], b);
    }
  }

  /** One transaction that sends a command script, sets a window and fills it: the shape of
      both displayRect (with no script) and initDisplay. */
  function ScriptedFill(s: Lcd, script: seq<Event>, x: U32, y: U32, w: U32, h: U32, color: bv16): (r: Lcd)
    requires |s.buffer| == BufferLength
    ensures |r.buffer| == BufferLength && r.window == Wrap32(w * h)
    ensures |r.trace| > |s.trace| + 1 && r.trace[..|s.trace|] == s.trace
    ensures r.trace[|s.trace|] == Begin && r.trace[|r.trace| - 1] == End
  {
    var s1 := SetWindow(s.(trace := s.trace + [Begin] + script), x, y, w, h);
    ColorFillSends(s1, color);
    var s2 := ColorFill(s1, color);
    s2.(trace := s2.trace + [End])
  }

  /** initDisplay from its startWrite on (lines 291-376): the script, a full-panel window
      and a fill in the default colour, in one transaction. */
  function Init(s: Lcd, color: bv16): (r: Lcd)
    requires |s.buffer| == BufferLength
    ensures |r.buffer| == BufferLength && r.window == PanelSize * PanelSize
    ensures |r.trace| > |s.trace| + 1 && r.trace[..|s.trace|] == s.trace
    ensures r.trace[|s.trace|] == Begin && r.trace[|r.trace| - 1] == End
  {
    SmallProduct(PanelSize, PanelSize);
    ScriptedFill(s, Emit(InitRegisters()), 0, 0, PanelSize, PanelSize, color)
  }

  /** The controller's reading of a trace: each command with the bytes of the Data events
      that follow it up to the next command. */
  function Settings(t: seq<Event>): seq<(bv8, seq<bv8>)>
    decreases |t|
  {
    if t == [] then []
    else if t[0].Cmd? then [(t[0].op, Payload(LeadingData(t[1..])))] + Settings(t[1..])
    else Settings(t[1..])
  }

  /** The Data events at the front of a trace. */
  function LeadingData(t: seq<Event>): seq<Event>
    decreases |t|
  {
    if t != [] && t[0].Data? then [t[0]] + LeadingData(t[1..]) else []
  }

  function Concat(writes: seq<seq<bv8>>): seq<bv8>
  {
    if writes == [] then [] else writes[0] + Concat(writes[1..])
  }

  lemma {:induction false} DataEventsPrefix(writes: seq<seq<bv8>>, rest: seq<Event>)
    requires rest == [] || !rest[0].Data?
    ensures LeadingData(DataEvents(writes) + rest) == DataEvents(writes)
    ensures Settings(DataEvents(writes) + rest) == Settings(rest)
  {
    var d := DataEvents(writes);
    if writes == [] {
      assert d + rest == rest;
    } else {
      DataEventsPrefix(writes[1..], rest);
      var d1 := DataEvents(writes[1..]);
      assert d == [Data(writes[0])] + d1;
      assert (d + rest)[0] == Data(writes[0]);
      assert (d + rest)[1..] == d1 + rest;
    }
  }

  lemma {:induction false} DataEventsSilent(writes: seq<seq<bv8>>)
    ensures Commands(DataEvents(writes)) == []
    ensures DataOnly(DataEvents(writes))
  {
    var d := DataEvents(writes);
    if writes != [] {
      DataEventsSilent(writes[1..]);
      assert d[1..] == DataEvents(writes[1..]);
    }
  }

  /** The parameter writes of one register carry the concatenation of their bytes. */
  lemma {:induction false} DataEventsPayload(writes: seq<seq<bv8>>)
    ensures Payload(DataEvents(writes)) == Concat(writes)
  {
    var d := DataEvents(writes);
    if writes != [] {
      DataEventsPayload(writes[1..]);
      assert d[1..] == DataEvents(writes[1..]);
    }
  }

  /** What a register script sets: each command with the concatenation of its writes. */
  function Intended(regs: seq<Register>): (r: seq<(bv8, seq<bv8>)>)
    ensures |r| == |regs|
  {
    seq(|regs|, k requires 0 <= k < |regs| => (regs[k].op, Concat(regs[k].writes)))
  }

  function Ops(regs: seq<Register>): (r: seq<bv8>)
    ensures |r| == |regs|
  {
    seq(|regs|, k requires 0 <= k < |regs| => regs[k].op)
  }

  lemma IntendedCons(regs: seq<Register>)
    requires regs != []
    ensures Intended(regs) == [(regs[0].op, Concat(regs[0].writes))] + Intended(regs[1..])
  {
    var a, b := Intended(regs), [(regs[0].op, Concat(regs[0].writes))] + Intended(regs[1..]);
    forall k | 0 <= k < |regs| ensures a[k] == b[k] {
      if k > 0 { assert regs[1..][k - 1] == regs[k]; }
    }
  }

  lemma OpsCons(regs: seq<Register>)
    requires regs != []
    ensures Ops(regs) == [regs[0].op] + Ops(regs[1..])
  {
    var a, b := Ops(regs), [regs[0].op] + Ops(regs[1..]);
    forall k | 0 <= k < |regs| ensures a[k] == b[k] {
      if k > 0 { assert regs[1..][k - 1] == regs[k]; }
    }
  }

  /** The trace of a script from its second register on starts with a command, if anything. */
  lemma EmitStartsWithCommand(regs: seq<Register>)
    ensures Emit(regs) == [] || Emit(regs)[0].Cmd?
  {
  }

  /** The controller reads back, from the trace of a script, exactly each register's command
      with the concatenation of its parameter writes. */
  lemma {:induction false} SettingsOfEmit(regs: seq<Register>)
    ensures Settings(Emit(regs)) == Intended(regs)
  {
    if regs != [] {
      var d := DataEvents(regs[0].writes);
      var rest := Emit(regs[1..]);
      SettingsOfEmit(regs[1..]);
      EmitStartsWithCommand(regs[1..]);
      assert Emit(regs) == [Cmd(regs[0].op)] + (d + rest);
      SettingsAfterCommand(regs[0].op, regs[0].writes, rest);
      IntendedCons(regs);
    }
  }

  /** A command followed by its parameter writes: the controller reads the command with
      exactly those bytes, up to the next command. */
  lemma SettingsAfterCommand(op: bv8, writes: seq<seq<bv8>>, rest: seq<Event>)
    requires rest == [] || !rest[0].Data?
    ensures Settings([Cmd(op)] + (DataEvents(writes) + rest)) == [(op, Concat(writes))] + Settings(rest)
  {
    var d := DataEvents(writes);
    var t := [Cmd(op)] + (d + rest);
    DataEventsPrefix(writes, rest);
    DataEventsPayload(writes);
    assert t[1..] == d + rest;
  }

  /** A script sends its commands in order. */
  lemma {:induction false} CommandsOfEmit(regs: seq<Register>)
    ensures Commands(Emit(regs)) == Ops(regs)
  {
    if regs != [] {
      var d := DataEvents(regs[0].writes);
      var rest := Emit(regs[1..]);
      CommandsOfEmit(regs[1..]);
      assert Emit(regs) == [Cmd(regs[0].op)] + (d + rest);
      RegisterCommands(regs[0].op, regs[0].writes, rest);
      OpsCons(regs);
    }
  }

  lemma RegisterCommands(op: bv8, writes: seq<seq<bv8>>, rest: seq<Event>)
    ensures Commands([Cmd(op)] + (DataEvents(writes) + rest)) == [op] + Commands(rest)
  {
    var d := DataEvents(writes);
    DataEventsSilent(writes);
    CommandsAppend(d, rest);
    assert ([Cmd(op)] + (d + rest))[1..] == d + rest;
  }

  /** A script sends no Begin or End. */
  lemma {:induction false} EmitUnframed(regs: seq<Register>)
    ensures Unframed(Emit(regs))
  {
    if regs != [] {
      var d := DataEvents(regs[0].writes);
      var rest := Emit(regs[1..]);
      EmitUnframed(regs[1..]);
      assert Emit(regs) == [Cmd(regs[0].op)] + (d + rest);
      RegisterUnframed(regs[0].op, regs[0].writes, rest);
    }
  }

  lemma RegisterUnframed(op: bv8, writes: seq<seq<bv8>>, rest: seq<Event>)
    requires Unframed(rest)
    ensures Unframed([Cmd(op)] + (DataEvents(writes) + rest))
  {
    var d := DataEvents(writes);
    DataEventsSilent(writes);
    DataOnlyUnframed(d);
    UnframedAppend(d, rest);
    UnframedAppend([Cmd(op)], d + rest);
  }

  /** The golden register settings of the panel: command 54 gets two zero bytes, 178 gets its
      five parameters twice, the gamma tables 224 and 225 get 14 bytes each, and the script
      ends with five commands without parameters. */
  function GoldenSettings(): seq<(bv8, seq<bv8>)>
  {
    [(54, [0, 0]), (58, [5]), (178, [12, 12, 0, 51, 51, 12, 12, 0, 51, 51]),
     (183, [53]), (187, [25]), (192, [44]), (194, [1]), (195, [18]), (196, [32]),
     (198, [15]), (208, [164, 161]),
     (224, [208, 4, 13, 17, 19, 43, 63, 84, 76, 24, 13, 11, 31, 35]),
     (225, [208, 4, 12, 17, 19, 44, 63, 68, 81, 47, 31, 31, 32, 35]),
     (33, []), (17, []), (41, []), (0x11, []), (0x29, [])]
  }

  /** The script of initDisplay configures the controller with the golden settings, sending
      the commands 54, 58, 178, 183, 187, 192, 194, 195, 196, 198, 208, 224, 225, 33, 17, 41,
      0x11 and 0x29 in that order, and no Begin or End inside. */
  lemma InitScriptSettings()
    ensures Settings(Emit(InitRegisters())) == GoldenSettings()
    ensures Commands(Emit(InitRegisters()))
         == [54, 58, 178, 183, 187, 192, 194, 195, 196, 198, 208, 224, 225, 33, 17, 41, 0x11, 0x29]
    ensures Unframed(Emit(InitRegisters()))
  {
    var regs := InitRegisters();
    SettingsOfEmit(regs);
    CommandsOfEmit(regs);
    EmitUnframed(regs);
    IntendedInit();
    OpsInit();
  }

  lemma ConcatOne(w: seq<bv8>)
    ensures Concat([w]) == w
  {
    assert [w][1..] == [];
  }

  /** Command 178 is written bytewise and then again as one block: five parameters twice. */
  lemma PowerSettingTwice()
    ensures Concat([[12], [12], [0], [51], [51], [12, 12, 0, 51, 51]]) == [12, 12, 0, 51, 51, 12, 12, 0, 51, 51]
  {
    var w: seq<seq<bv8>> := [[12], [12], [0], [51], [51], [12, 12, 0, 51, 51]];
    assert Concat(w[5..]) == [12, 12, 0, 51, 51] by {
      assert w[5..][1..] == [];
    }
    assert Concat(w[4..]) == [51, 12, 12, 0, 51, 51] by {
      assert w[4..][1..] == w[5..];
    }
    assert Concat(w[3..]) == [51, 51, 12, 12, 0, 51, 51] by {
      assert w[3..][1..] == w[4..];
    }
    assert Concat(w[2..]) == [0, 51, 51, 12, 12, 0, 51, 51] by {
      assert w[2..][1..] == w[3..];
    }
    assert Concat(w[1..]) == [12, 0, 51, 51, 12, 12, 0, 51, 51] by {
      assert w[1..][1..] == w[2..];
    }
  }

  /** The script writes the golden settings, register by register. */
  lemma IntendedInit()
    ensures Intended(InitRegisters()) == GoldenSettings()
  {
    IntendedInitA();
    IntendedInitB();
    IntendedInitC();
    IntendedInitD();
  }

  lemma IntendedInitA()
    ensures forall k :: 0 <= k < 5 ==> Intended(InitRegisters())[k] == GoldenSettings()[k]
  {
    var regs, r, g := InitRegisters(), Intended(InitRegisters()), GoldenSettings();
    assert regs[0] == Register(54, [[0], [0]]);
    assert Concat([[0], [0]]) == [0, 0];
    assert r[0] == g[0];
    assert regs[1] == Register(58, [[5]]);
    assert Concat([[5]]) == [5];
    assert r[1] == g[1];
    assert regs[2] == Register(178, [[12], [12], [0], [51], [51], [12, 12, 0, 51, 51]]);
    PowerSettingTwice();
    assert r[2] == g[2];
    assert regs[3] == Register(183, [[53]]);
    assert Concat([[53]]) == [53];
    assert r[3] == g[3];
    assert regs[4] == Register(187, [[25]]);
    assert Concat([[25]]) == [25];
    assert r[4] == g[4];
  }

  lemma IntendedInitB()
    ensures forall k :: 5 <= k < 10 ==> Intended(InitRegisters())[k] == GoldenSettings()[k]
  {
    var regs, r, g := InitRegisters(), Intended(InitRegisters()), GoldenSettings();
    assert regs[5] == Register(192, [[44]]);
    assert Concat([[44]]) == [44];
    assert r[5] == g[5];
    assert regs[6] == Register(194, [[1]]);
    assert Concat([[1]]) == [1];
    assert r[6] == g[6];
    assert regs[7] == Register(195, [[18]]);
    assert Concat([[18]]) == [18];
    assert r[7] == g[7];
    assert regs[8] == Register(196, [[32]]);
    assert Concat([[32]]) == [32];
    assert r[8] == g[8];
    assert regs[9] == Register(198, [[15]]);
    assert Concat([[15]]) == [15];
    assert r[9] == g[9];
  }

  lemma IntendedInitC()
    ensures forall k :: 10 <= k < 14 ==> Intended(InitRegisters())[k] == GoldenSettings()[k]
  {
    var regs, r, g := InitRegisters(), Intended(InitRegisters()), GoldenSettings();
    assert regs[10] == Register(208, [[164, 161]]);
    assert Concat([[164, 161]]) == [164, 161];
    assert r[10] == g[10];
    assert regs[11] == Register(224, [[208, 4, 13, 17, 19, 43, 63, 84, 76, 24, 13, 11, 31, 35]]);
    assert Concat([[208, 4, 13, 17, 19, 43, 63, 84, 76, 24, 13, 11, 31, 35]]) == [208, 4, 13, 17, 19, 43, 63, 84, 76, 24, 13, 11, 31, 35];
    assert r[11] == g[11];
    assert regs[12] == Register(225, [[208, 4, 12, 17, 19, 44, 63, 68, 81, 47, 31, 31, 32, 35]]);
    assert Concat([[208, 4, 12, 17, 19, 44, 63, 68, 81, 47, 31, 31, 32, 35]]) == [208, 4, 12, 17, 19, 44, 63, 68, 81, 47, 31, 31, 32, 35];
    assert r[12] == g[12];
    assert regs[13] == Register(33, []);
    assert Concat([]) == [];
    assert r[13] == g[13];
  }

  lemma IntendedInitD()
    ensures forall k :: 14 <= k < 18 ==> Intended(InitRegisters())[k] == GoldenSettings()[k]
  {
    var regs, r, g := InitRegisters(), Intended(InitRegisters()), GoldenSettings();
    assert regs[14] == Register(17, []);
    assert Concat([]) == [];
    assert r[14] == g[14];
    assert regs[15] == Register(41, []);
    assert Concat([]) == [];
    assert r[15] == g[15];
    assert regs[16] == Register(0x11, []);
    assert Concat([]) == [];
    assert r[16] == g[16];
    assert regs[17] == Register(0x29, []);
    assert Concat([]) == [];
    assert r[17] == g[17];
  }

  lemma OpsInit()
    ensures Ops(InitRegisters())
         == [54, 58, 178, 183, 187, 192, 194, 195, 196, 198, 208, 224, 225, 33, 17, 41, 0x11, 0x29]
  {
  }

  lemma ScriptedFillSends(s: Lcd, script: seq<Event>, x: U32, y: U32, w: U32, h: U32, color: bv16)
    requires |s.buffer| == BufferLength && Unframed(script)
    ensures ScriptedFill(s, script, x, y, w, h, color).trace
         == s.trace + ([Begin] + script + WindowEvents(x, y, w, h) + FillChunks(PixelBytes(w, h), color) + [End])
    ensures ScriptedFill(s, script, x, y, w, h, color).window == Wrap32(w * h)
    ensures |ScriptedFill(s, script, x, y, w, h, color).buffer| == BufferLength
    ensures Transaction([Begin] + script + WindowEvents(x, y, w, h) + FillChunks(PixelBytes(w, h), color) + [End])
  {
    var win := WindowEvents(x, y, w, h);
    var fill := FillChunks(PixelBytes(w, h), color);
    var s1 := SetWindow(s.(trace := s.trace + [Begin] + script), x, y, w, h);
    assert s1.trace == s.trace + [Begin] + script + win;
    assert s1.window == Wrap32(w * h);
    ColorFillSends(s1, color);
    var s2 := ColorFill(s1, color);
    assert s2.trace == s1.trace + fill;
    SeqAssoc5(s.trace, [Begin], script, win, fill, [End]);
    ScriptTransaction(script, x, y, w, h, color);
  }

  lemma SeqAssoc5(a: seq<Event>, b: seq<Event>, c: seq<Event>, d: seq<Event>, e: seq<Event>, f: seq<Event>)
    ensures a + b + c + d + e + f == a + (b + c + d + e + f)
  {
  }

  lemma ScriptTransaction(script: seq<Event>, x: U32, y: U32, w: U32, h: U32, color: bv16)
    requires Unframed(script)
    ensures Transaction([Begin] + script + WindowEvents(x, y, w, h) + FillChunks(PixelBytes(w, h), color) + [End])
  {
    var win := WindowEvents(x, y, w, h);
    var fill := FillChunks(PixelBytes(w, h), color);
    FillChunksChunked(PixelBytes(w, h), color);
    WindowUnframed(x, y, w, h);
    DataOnlyUnframed(fill);
    UnframedAppend(script, win);
    UnframedAppend(script + win, fill);
    BracketIsTransaction(script + win + fill);
    assert [Begin] + script + win + fill + [End] == [Begin] + (script + win + fill) + [End];
  }

  /** initDisplay appends one transaction: the golden script, the full 240 x 240 window and
      its fill of two bytes per pixel, and leaves the window at 57600 pixels. */
  lemma InitSends(s: Lcd, color: bv16)
    requires |s.buffer| == BufferLength
    ensures Init(s, color).trace
         == s.trace + ([Begin] + Emit(InitRegisters()) + WindowEvents(0, 0, PanelSize, PanelSize)
            + FillChunks(PixelBytes(PanelSize, PanelSize), color) + [End])
    ensures PixelBytes(PanelSize, PanelSize) == 2 * PanelSize * PanelSize
    ensures Init(s, color).window == PanelSize * PanelSize
    ensures |Init(s, color).buffer| == BufferLength
    ensures Transaction([Begin] + Emit(InitRegisters()) + WindowEvents(0, 0, PanelSize, PanelSize)
                        + FillChunks(PixelBytes(PanelSize, PanelSize), color) + [End])
  {
    EmitUnframed(InitRegisters());
    ScriptedFillSends(s, Emit(InitRegisters()), 0, 0, PanelSize, PanelSize, color);
    SmallProduct(PanelSize, PanelSize);
    assert PixelBytes(PanelSize, PanelSize) == 2 * PanelSize * PanelSize;
  }
}
