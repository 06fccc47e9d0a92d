# ATCwatch display pipeline

This is a Dafny model of the display driver of the ATCwatch firmware
(`ATCwatch/display.cpp`). The driver talks to a 240 x 240 ST77XX-class panel over
SPI. On top of that bus it offers:

- a character decoder that folds selected two-byte UTF-8 sequences into 8-bit font
  slots;
- a 5 x 8 glyph rasterizer;
- a line composer with a wrap at column 234;
- the controller's window, power and initialisation commands;
- a pixel streamer that sends colour fills and RGB565 images through the 15004-byte
  `lcd_buffer`.

The bus is modelled as an append-only trace of events (`Bus.Event`):

- `Begin` and `End` are `startWrite` and `endWrite`, chip select asserted and released.
- `Cmd(op)` is one `spiCommand`, a byte sent with the register-select line low.
- `Data(bytes)` is one call of the byte writer: `spiWrite` or `write_fast_spi`.

The model has two layers.

- **Specification functions:**
  - `Streamer`: colour fill and image chunks.
  - `Protocol`: window, rectangle, image, enable and init transactions.
  - `Decoder`: the UTF-8 state machine.
  - `Raster`: the cells of a glyph.
  - `Layout`: drawChar and displayPrintln.

  Each one takes the bus state `Lcd(trace, window, buffer)` to the next. Beside it there
  are reference definitions and the lemmas that connect them: the chunk-size rule, the
  colour pattern, the big-endian image stream, the opaque and transparent glyph layouts,
  the golden init settings and the encode/decode round trip.
- **The `Display.Display` class:**
  - The driver's globals are its fields:
    - `lcd_buffer` as an `array<bv8>`;
    - `widthheigthWindow`;
    - `last_uni_char` and `last_char`;
    - the bus trace.
  - Each routine of display.cpp is a method with the source's loops. Its postcondition
    says that it leaves the bus and the globals exactly as its specification function
    says.

C unsigned arithmetic is explicit. `uint32_t` values are the subset type `U32`, and
every sum or product stored in one goes through `Wrap32` (mod 2^32). Stores into a
`uint8_t` go through `Byte` (mod 256). Colours are `bv16` and bytes are `bv8`.

Where the code and its design description differ, the model follows the code:

- **The wrap test runs before every byte**, including bytes that draw nothing:
  - a control byte;
  - a lead byte;
  - a rejected pair.

  Such a byte can still move `y` down by one line when the cursor has reached column 234.
- **The decoder does not validate UTF-8.** Any byte of 127 or more that comes while a lead
  is pending is taken as the trailing byte, DEL (127) included.
- **Control and printable bytes leave a pending lead pending.**

## Model

| member | source | states |
|---|---|---|
| Bus.Wrap32 | ATCwatch/display.cpp:259 | the stored `uint32_t` differs from the exact value by a multiple of 2^32 and lies in 0 .. 2^32 - 1 |
| Bus.Join | ATCwatch/display.cpp:405-406 | the colour rebuilt from two bytes has exactly those bytes as its high (`color >> 8`) and low (`(uint8_t) color`) halves |
| Bus.JoinHiLo | ATCwatch/display.cpp:405-406 | sending the high byte and then the low byte loses nothing: the two bytes on the wire rebuild the colour |
| Bus.TransactionBalanced | ATCwatch/display.cpp:379-397 | a Begin, commands and data, then an End, keeps chip-select discipline and leaves the bus released |
| Bus.BalancedAppend | ATCwatch/display.cpp:379-397 | closed chip-select periods can be concatenated and stay balanced |
| Bus.SumSizesIsPayloadLength | ATCwatch/display.cpp:230 | the sizes of a trace's data writes add up to the number of payload bytes |
| Decoder.Remap | ATCwatch/display.cpp:38-171 | the remap switch: the font slot of an accepted (lead, trail) pair and None for any other; every slot it yields is 0x02 or at least 0x80, so never printable ASCII |
| Decoder.RemapThenEncode | ATCwatch/display.cpp:38-171 | every pair the remap switch accepts is the encoding of the slot it selects |
| Decoder.EncodeThenRemap | ATCwatch/display.cpp:38-171 | every encodable slot is reached by the switch from its two-byte encoding |
| Decoder.RemapInjective | ATCwatch/display.cpp:38-171 | no two accepted pairs map to the same font slot |
| Decoder.RemapRange | ATCwatch/display.cpp:38-171 | a remapped slot is 0x02 or at least 0x80, so it never collides with printable ASCII; only the leads 0xC3, 0xC4, 0xC5 and 0xF0 map anything; the slot is 0x02 exactly for lead 0xF0 |
| Decoder.RemapEmoji | ATCwatch/display.cpp:168-171 | under lead 0xF0 exactly the trail 0x9F is accepted, and it selects slot 0x02 |
| Decoder.DecodeStep | ATCwatch/display.cpp:29-172 | one byte through the decoder globals: a byte below 127 leaves both globals as they were, a byte of 127 or more flips the pending flag, and a slot that comes out is always printable ASCII or one with a two-byte encoding |
| Decoder.ControlByte | ATCwatch/display.cpp:30 | a byte below 32 draws nothing and leaves both decoder globals unchanged, even with a lead pending. The lemma unfolds one branch of DecodeStep; that the driver behaves so rests on Display.Display.DrawChar, whose postcondition is Layout.DrawChar built on DecodeStep, and on Decoder.DecodeEncodeText. |
| Decoder.PrintableByte | ATCwatch/display.cpp:30-31 | a byte in 32 .. 126 is drawn as its own slot and leaves both decoder globals unchanged. The lemma unfolds one branch of DecodeStep; that the driver behaves so rests on Display.Display.DrawChar, whose postcondition is Layout.DrawChar built on DecodeStep, and on Decoder.DecodeEncodeText. |
| Decoder.LeadByte | ATCwatch/display.cpp:31-35 | a byte of 127 or more with no lead pending becomes the pending lead and draws nothing. The lemma unfolds one branch of DecodeStep; that the driver behaves so rests on Display.Display.DrawChar, whose postcondition is Layout.DrawChar built on DecodeStep, and on Decoder.DecodeEncodeText. |
| Decoder.TrailingByte | ATCwatch/display.cpp:36-172 | a byte of 127 or more with a lead pending always clears the flag, and a slot g is drawn exactly when (lead, byte) is g's encoding |
| Decoder.DecodeRun | ATCwatch/display.cpp:29-173 | drawChar's decoder over a byte string from a given state: one outcome per byte, every drawn slot renderable, and the state left behind |
| Decoder.DecodeRunAppend | ATCwatch/display.cpp:29-173 | decoding a concatenation is decoding the parts one after the other, the state carried across |
| Decoder.AsciiPassesThrough | ATCwatch/display.cpp:30-31 | printable ASCII decodes to itself from any state, and a pending lead stays pending across it |
| Decoder.DecodePair | ATCwatch/display.cpp:31-172 | from an idle decoder a lead byte and a trailing byte yield nothing, then the remap of the pair, and leave the decoder idle |
| Decoder.DecodeOneGlyph | ATCwatch/display.cpp:29-173 | the bytes that encode a renderable slot decode, from an idle decoder, to exactly that slot |
| Decoder.DecodeEncodeText | ATCwatch/display.cpp:29-173 | round trip: encoding a sequence of renderable slots as bytes and decoding it gives back exactly those slots and leaves the decoder idle |
| Streamer.ChunkSize | ATCwatch/display.cpp:410-413 | a chunk is never larger than LCD_BUFFER_SIZE or than what is left, is non-empty when anything is left, and is either all that is left or a full buffer |
| Streamer.FillEnd | ATCwatch/display.cpp:404-407 | the packing loop `i <= colorSize` stops at an even index just past `colorSize`, at most two past it |
| Streamer.FillStaysInBuffer | ATCwatch/display.cpp:19 | the packing loop of displayColor writes at most index `colorSize + 1`, inside the four spare bytes of `lcd_buffer` |
| Streamer.SendChunks | ATCwatch/display.cpp:408-416 | the do-while of displayColor appends NumChunks(remaining) writes, ceil(remaining / 15000) but at least one, after the old trace, and touches neither buffer nor window |
| Streamer.ColorFill | ATCwatch/display.cpp:399-417 | displayColor on the current window: it keeps the window and the buffer's length and appends NumChunks of `2 * widthheigthWindow` (mod 2^32) writes after the old trace; ColorFillSends ties those writes to the reference FillChunks |
| Streamer.FillBytes | ATCwatch/display.cpp:401 | none; see Protocol.FillBytesBound (`widthheigthWindow * 2` in uint32 arithmetic) |
| Streamer.Filled | ATCwatch/display.cpp:404-407 | the buffer after the packing loop keeps its length; see Display.Display.PackColor and Streamer.FillChunksPayload for its contents |
| Streamer.FillChunksChunked | ATCwatch/display.cpp:408-416 | a fill of n bytes obeys the chunk-size rule: data writes only, ceil(n / 15000) of them but at least one, sizes summing to n, every write but the last a full 15000 bytes, and the last the non-empty remainder |
| Streamer.FillChunksPayload | ATCwatch/display.cpp:404-416 | every byte a fill sends is the alternating `color >> 8`, `color & 0xFF` pattern, in total and write by write |
| Streamer.SendChunksSendsPattern | ATCwatch/display.cpp:408-416 | the send loop over a buffer whose front holds the pattern appends exactly the reference chunks, and changes neither buffer nor window |
| Streamer.ColorFillSends | ATCwatch/display.cpp:399-417 | displayColor appends the reference chunks for `2 * widthheigthWindow` (mod 2^32) bytes, and keeps the window and the buffer's length |
| Streamer.BigEndianAt | ATCwatch/display.cpp:226-227 | byte n of a pixel run on the wire is the high byte of pixel n / 2 for even n and its low byte for odd n |
| Streamer.ImageFrom | ATCwatch/display.cpp:218-232 | the do-while of displayImage from byte `pos`: it keeps the window and the buffer's length and appends NumChunks(total - pos) writes after the old trace; ImageFromSends ties them to the reference ImageChunks |
| Streamer.ImageChunk | ATCwatch/display.cpp:225-231 | `size` bytes of the image's big-endian stream from byte `pos`, exactly `size` long; see Streamer.ChunkIsBigEndian |
| Streamer.ImagePacked | ATCwatch/display.cpp:219-229 | the buffer after the memset and the packing loop keeps its length; see Streamer.ImagePackedFront for its front |
| Streamer.ImagePass | ATCwatch/display.cpp:219-230 | one pass of displayImage's loop sends exactly the next chunk of the image's big-endian stream, so the 0x43 filler never reaches the bus; the window and the buffer's length stay the same |
| Streamer.ImagePackedFront | ATCwatch/display.cpp:219-229 | after the memset and the packing loop, the first `curSize` bytes of the buffer are exactly the image chunk |
| Streamer.ImageFromSends | ATCwatch/display.cpp:218-232 | the do-while of displayImage appends exactly the reference image chunks and leaves the window alone |
| Streamer.EvenChunk | ATCwatch/display.cpp:220-223 | from an even position in an even stream every chunk is even and ends inside the stream, so a pixel never straddles two writes |
| Streamer.ChunkIsBigEndian | ATCwatch/display.cpp:225-229 | each chunk is the big-endian form of its own pixels |
| Streamer.ImageChunkAppend | ATCwatch/display.cpp:231 | two consecutive pieces of the image stream join into one |
| Streamer.ImageChunksPayload | ATCwatch/display.cpp:218-232 | the image chunks concatenate to the stream from `pos` to `total`: no byte lost, repeated or reordered |
| Streamer.ImageChunksChunked | ATCwatch/display.cpp:218-232 | the image stream obeys the same chunk-size rule as a fill |
| Protocol.WindowEvents | ATCwatch/display.cpp:260-272 | the five bus events of a window, 0x2A with the column block, 0x2B with the row block, then 0x2C; WindowAddressesPanel and WindowCommands say what the controller reads from them |
| Protocol.SetWindow | ATCwatch/display.cpp:256-273 | appends five events after the old trace, keeps the buffer, and for a window on the panel records exactly its pixel count w * h |
| Protocol.WindowAddressesPanel | ATCwatch/display.cpp:256-273 | for a window on the panel the controller is addressed with exactly its columns x .. x + w - 1 and rows y .. y + h - 1, and `widthheigthWindow` becomes w * h |
| Protocol.AddressOnPanel | ATCwatch/display.cpp:262-265 | an address-set block for a start and a size on the panel reads back, as two 16-bit big-endian numbers, as that start and that end |
| Protocol.SmallProduct | ATCwatch/display.cpp:259 | the pixel count of a window on the panel does not wrap |
| Protocol.PixelBytes | ATCwatch/display.cpp:214 | none; see Protocol.PixelBytesBound |
| Protocol.PixelBytesBound | ATCwatch/display.cpp:214 | `widthheigthWindow * 2` is even, never more than 2 * w * h, and exactly that while w * h stays below 2^31 |
| Protocol.FillBytesBound | ATCwatch/display.cpp:401 | the byte count of a fill is even, never more than twice the pixel count, and exactly twice it below 2^31 |
| Protocol.WindowCommands | ATCwatch/display.cpp:260-272 | a window is set by the commands 0x2A, 0x2B and 0x2C, in that order |
| Protocol.FillRect | ATCwatch/display.cpp:204-209 | displayRect appends one chip-select period after the old trace, Begin first and End last, records w * h (mod 2^32) and keeps the buffer's length |
| Protocol.FillRectSends | ATCwatch/display.cpp:204-209 | displayRect appends one transaction, the window and then the fill chunks, records w * h (mod 2^32) and keeps the buffer's length |
| Protocol.RectStream | ATCwatch/display.cpp:204-209 | a rectangle sends the commands 0x2A, 0x2B, 0x2C and then its colour pattern, in chunks that obey the chunk-size rule |
| Protocol.DrawImage | ATCwatch/display.cpp:211-234 | displayImage appends one chip-select period after the old trace, Begin first and End last, records w * h (mod 2^32) and keeps the buffer's length |
| Protocol.DrawImageSends | ATCwatch/display.cpp:211-234 | displayImage appends one transaction, the window and then the reference image chunks, and records w * h (mod 2^32) |
| Protocol.ImageStream | ATCwatch/display.cpp:214-232 | with `bufferPos` starting at 0, the image writes concatenate to the big-endian bytes of the first `numPixels / 2` source pixels, at most w * h of them (the byte count over two never exceeds w * h), and obey the chunk-size rule |
| Protocol.ImageBytesStream | ATCwatch/display.cpp:218-232 | an image stream of n bytes carries the big-endian bytes of the first n / 2 pixels, in chunks that obey the chunk-size rule |
| Protocol.EnableEvents | ATCwatch/display.cpp:236-247 | the transaction display_enable sends for on and for off; EnableSends and EnablePowers say what it carries and what it does to the panel |
| Protocol.EnableSends | ATCwatch/display.cpp:236-247 | display_enable sends one transaction with no data: display-on then sleep-out when switching on, sleep-in then display-off when switching off |
| Protocol.EnablePowers | ATCwatch/display.cpp:236-247 | read by the controller's sleep-mode and display-output state, display_enable(true) leaves the panel awake and showing and display_enable(false) asleep and dark, whatever state it was in, provided the four opcodes are distinct |
| Protocol.InitRegisters | ATCwatch/display.cpp:292-373 | the 18-register table of initDisplay, write for write; InitScriptSettings and IntendedInit say what it configures |
| Protocol.SettingsOfEmit | ATCwatch/display.cpp:292-373 | the controller reads back, from the trace of a register script, each command with exactly the concatenation of its parameter writes |
| Protocol.CommandsOfEmit | ATCwatch/display.cpp:292-373 | a register script sends its commands in order |
| Protocol.EmitUnframed | ATCwatch/display.cpp:292-373 | a register script sends no Begin or End |
| Protocol.EmitAppend | ATCwatch/display.cpp:292-373 | sending two scripts one after the other sends their concatenation |
| Protocol.RegisterSent | ATCwatch/display.cpp:292-373 | one register sent after a trace shortens what is left to send by that register |
| Protocol.DataEventsPayload | ATCwatch/display.cpp:292-373 | the parameter writes of one register carry the concatenation of their bytes |
| Protocol.PowerSettingTwice | ATCwatch/display.cpp:299-310 | command 178 gets its five parameters 12, 12, 0, 51, 51 twice, once bytewise and once as a block |
| Protocol.IntendedInit | ATCwatch/display.cpp:292-373 | the init script writes the golden settings register by register |
| Protocol.InitScriptSettings | ATCwatch/display.cpp:292-373 | initDisplay's script configures the golden settings: 54 gets two zero bytes, 178 its five parameters twice, 224 and 225 fourteen bytes each; the commands are 54, 58, 178, 183, 187, 192, 194, 195, 196, 198, 208, 224, 225, 33, 17, 41, 0x11, 0x29 in that order, with no Begin or End inside |
| Protocol.ScriptedFill | ATCwatch/display.cpp:291-376 | a script, a window and its fill append one chip-select period after the old trace, Begin first and End last, record w * h (mod 2^32) and keep the buffer's length |
| Protocol.Init | ATCwatch/display.cpp:291-376 | initDisplay appends one chip-select period after the old trace, Begin first and End last, and leaves the window at 240 * 240 pixels |
| Protocol.ScriptedFillSends | ATCwatch/display.cpp:291-376 | a script, a window and its fill in one transaction append exactly Begin, the script, the window, the fill chunks and End, and record w * h |
| Protocol.ScriptTransaction | ATCwatch/display.cpp:291-376 | Begin, an unframed script, a window, a fill and End form one chip-select period |
| Protocol.InitSends | ATCwatch/display.cpp:291-376 | initDisplay appends one transaction: the golden script, the full 240 x 240 window and 115200 fill bytes; it leaves the window at 57600 pixels |
| Raster.FontColumns | ATCwatch/display.cpp:175 | the five column bytes of slot g are `font57[g * 5 + i]` for i in 0 .. 4 |
| Raster.FontReadsInTable | ATCwatch/display.cpp:175 | every font read is below index 1280 |
| Raster.CellRect | ATCwatch/display.cpp:177-181 | none; see Raster.RowCount and Raster.RowOpaque |
| Raster.CellFor | ATCwatch/display.cpp:177-181 | none; see Raster.RowCount and Raster.RowOpaque |
| Raster.RowRects | ATCwatch/display.cpp:176-183 | the inner loop of the rasterizer from row j on, one cell choice per row; RowCount, RowOpaque and RowTransparent say what it draws |
| Raster.ColumnRects | ATCwatch/display.cpp:174-184 | the outer loop from column i on, the inner loop per column; ColumnsCount, ColumnsOpaque and ColumnsTransparent say what it draws |
| Raster.GlyphRects | ATCwatch/display.cpp:174-187 | every displayRect call for one glyph: the columns, then the spacing column; GlyphCount, OpaqueGlyph and TransparentGlyph say what it draws |
| Raster.RowCount | ATCwatch/display.cpp:176-183 | from row j the inner loop draws at most 8 - j cells, exactly 8 - j with a distinct background, each `size x size` in column i and in the foreground or the background colour |
| Raster.ColumnsCount | ATCwatch/display.cpp:174-184 | from column i the outer loop draws at most 8 cells per remaining column, exactly 8 with a distinct background, each in the foreground or the background colour |
| Raster.GlyphCount | ATCwatch/display.cpp:174-187 | a glyph takes at most 41 displayRect calls, exactly 41 when the background differs from the foreground, each in one of the two colours |
| Raster.Spacing | ATCwatch/display.cpp:185-187 | none; see Raster.GlyphCount and Raster.OpaqueGlyph |
| Raster.ShiftBit | ATCwatch/display.cpp:176 | `line >>= 1` moves every bit one row up |
| Raster.NextRow | ATCwatch/display.cpp:176-177 | in the inner loop, the low bit of `line` is bit j of the column byte, and the shifted line holds the rows below |
| Raster.RowOpaque | ATCwatch/display.cpp:176-182 | with a distinct background the inner loop draws all eight cells of the column, each in the foreground exactly when its bit is set |
| Raster.ColumnsOpaque | ATCwatch/display.cpp:174-183 | with a distinct background the outer loop draws columns 0 .. 4 one after the other |
| Raster.ColumnsAt | ATCwatch/display.cpp:174-183 | in the opaque layout, rect number 8 * i + j is the cell of column i, row j, in the foreground exactly when its bit is set |
| Raster.OpaqueGlyph | ATCwatch/display.cpp:174-187 | with bg != color a glyph is exactly 41 rects: 8 cells per column for 5 columns in column-major order, each `size x size` at (x + i * size, y + j * size), then the spacing rect (x + 5 * size, y, size, 8 * size) in bg |
| Raster.SetBitsMembers | ATCwatch/display.cpp:176-182 | the cell list holds exactly the cells whose font bit is set |
| Raster.SetBitsIncreasing | ATCwatch/display.cpp:174-183 | the set cells are listed in strictly increasing column-major order, so no cell is listed twice |
| Raster.LitAppend | ATCwatch/display.cpp:174-183 | the foreground cells of two position lists, concatenated, are those of their concatenation |
| Raster.RowTransparent | ATCwatch/display.cpp:176-182 | with bg == color the inner loop draws only the foreground cells of the set bits of its column |
| Raster.ColumnsTransparent | ATCwatch/display.cpp:174-183 | with bg == color the outer loop draws the foreground cells of the set bits, column by column |
| Raster.TransparentGlyph | ATCwatch/display.cpp:174-187 | with bg == color a glyph is one foreground cell per set font bit, in column-major order, and no spacing rect |
| Raster.ApplyRects | ATCwatch/display.cpp:204-209 | a run of displayRect calls keeps the buffer's length; see Raster.ApplyRectsSends for its trace |
| Raster.ApplyRectsSends | ATCwatch/display.cpp:178-185 | a run of displayRect calls appends their transactions in order and nothing else, the bus released after each |
| Raster.ApplyRectsAppend | ATCwatch/display.cpp:174-187 | drawing two runs of rects is drawing their concatenation |
| Layout.CharRects | ATCwatch/display.cpp:174-187 | none; see Layout.DrawCharSends and Raster.GlyphCount |
| Layout.DrawChar | ATCwatch/display.cpp:29-188 | drawChar: the decoder step, then the rects of the slot that comes out; when it returns false the bus state is exactly as before, and the buffer keeps its length |
| Layout.DrawCharSends | ATCwatch/display.cpp:29-188 | drawChar steps the decoder and returns true exactly when a slot comes out; otherwise it touches neither the bus nor the window nor the buffer; when it draws it appends one transaction per rect of the glyph, chip select released after each |
| Layout.WrapAdd | ATCwatch/display.cpp:194-198 | uint32 sums can be reduced at any point |
| Layout.WrapCancel | ATCwatch/display.cpp:195 | setting `x = -(tempPosition * 6 * size)` puts the cursor at column 0 |
| Layout.PlaceOnLine | ATCwatch/display.cpp:194-198 | drawChar is always called left of column 234: at the cursor while it is below 234, otherwise at column 0 one `8 * size` line lower |
| Layout.CursorNext | ATCwatch/display.cpp:198-199 | one more drawn glyph moves the cursor `6 * size` to the right, in uint32 arithmetic |
| Layout.PrintStepAdvance | ATCwatch/display.cpp:194-200 | one pass steps the decoder, adds one to `tempPosition` exactly when a glyph is drawn, keeps the line drawn on, and leaves the cursor `6 * size` right of where it drew, or where the wrap put it when nothing is drawn |
| Layout.Cursor | ATCwatch/display.cpp:194 | none; see Layout.CursorNext and Layout.PlaceOnLine |
| Layout.Wrap | ATCwatch/display.cpp:194-197 | none; see Layout.PlaceOnLine |
| Layout.Place | ATCwatch/display.cpp:198 | none; see Layout.PlaceOnLine |
| Layout.PrintStep | ATCwatch/display.cpp:194-200 | one pass of displayPrintln's loop: the wrap test, drawChar at the place it chose, and `tempPosition` up by at most one |
| Layout.PrintStepBus | ATCwatch/display.cpp:194-200 | one pass draws the rects of the byte's glyph at the place the wrap test chose |
| Layout.DecodeRunSnoc | ATCwatch/display.cpp:192-201 | decoding one more byte appends that byte's outcome |
| Layout.Print | ATCwatch/display.cpp:192-201 | the loop over the bytes of a text: `tempPosition` grows by at most the number of bytes |
| Layout.Println | ATCwatch/display.cpp:190-202 | displayPrintln from `tempPosition = 0`: it ends with `tempPosition` at most the text's length |
| Layout.PrintDecodes | ATCwatch/display.cpp:190-202 | displayPrintln leaves the decoder state that decoding the whole text leaves, and `tempPosition` counts exactly the slots decoded |
| Layout.PrintAscii | ATCwatch/display.cpp:190-202 | a line of printable ASCII draws every byte, ends with `tempPosition` equal to the text's length, and keeps the decoder state, a pending lead included |
| Layout.Advance | ATCwatch/display.cpp:194-200 | a reference for one byte of a line, apart from the bus: the glyph goes at the cursor, or at column 0 one line lower once the cursor has reached 234, and a drawn glyph moves the cursor one `6 * size` cell on |
| Layout.Walk | ATCwatch/display.cpp:192-201 | that reference over every byte of a text, from a starting caret |
| Layout.LineRects | ATCwatch/display.cpp:190-202 | every displayRect call of a line, each glyph at the spot its caret in Walk gives it; built without displayPrintln's loop |
| Layout.StepCaret | ATCwatch/display.cpp:194-200 | one pass of displayPrintln's loop draws at the spot Advance gives and leaves decoder, cursor `x + tempPosition * 6 * size` and line where Advance puts them |
| Layout.PrintWalks | ATCwatch/display.cpp:190-202 | displayPrintln's loop keeps the decoder, the cursor and the line exactly where Walk over the same bytes puts them |
| Layout.PrintSends | ATCwatch/display.cpp:190-202 | a line is the glyphs of its bytes drawn one after the other, each at the spot the independent caret walk gives it: the bus after displayPrintln is that run of displayRect calls, one transaction each, and the bus is released at the end |
| Display.Display.constructor | ATCwatch/display.cpp:18-22 | the globals start zeroed: an empty trace, window 0, a zero 15004-byte `lcd_buffer` and an idle decoder |
| Display.Display.StartWrite | ATCwatch/display.cpp:389-392 | appends Begin and changes nothing else |
| Display.Display.EndWrite | ATCwatch/display.cpp:394-397 | appends End and changes nothing else |
| Display.Display.SpiCommand | ATCwatch/display.cpp:379-383 | appends one Cmd with the byte and changes nothing else |
| Display.Display.SpiWrite | ATCwatch/display.cpp:385-387 | appends one one-byte Data event and changes nothing else |
| Display.Display.WriteFastSpi | ATCwatch/display.cpp:230 | appends one Data event with the first n bytes of the buffer passed and changes nothing else |
| Display.Display.SetAddrWindowDisplay | ATCwatch/display.cpp:256-273 | the bus and window become exactly SetWindow of the old ones; buffer and decoder unchanged |
| Display.Display.DisplayColor | ATCwatch/display.cpp:399-417 | the packing loop and the do-while leave the trace, window and `lcd_buffer` exactly as ColorFill says |
| Display.Display.PackColor | ATCwatch/display.cpp:404-407 | the packing loop leaves `lcd_buffer` as Filled says: the colour pattern up to just past `colorSize`, the rest as it was |
| Display.Display.SendFill | ATCwatch/display.cpp:408-416 | the do-while appends what SendChunks says and leaves `lcd_buffer` and the window unchanged |
| Display.Display.DisplayRect | ATCwatch/display.cpp:204-209 | leaves the bus state exactly as FillRect says |
| Display.Display.PackImage | ATCwatch/display.cpp:219-229 | the memset and the packing loop leave `lcd_buffer` as ImagePacked says and advance `bufferPos` by `curSize / 2` |
| Display.Display.SendImageChunk | ATCwatch/display.cpp:219-231 | one pass of the do-while leaves the bus state as ImagePass says |
| Display.Display.StreamImage | ATCwatch/display.cpp:218-232 | the do-while, with `bufferPos` starting at 0, leaves the bus state as ImageFrom says |
| Display.Display.DisplayImage | ATCwatch/display.cpp:211-234 | leaves the bus state exactly as DrawImage says |
| Display.Display.DisplayEnable | ATCwatch/display.cpp:236-247 | appends exactly the enable transaction, window and buffer unchanged |
| Display.Display.DisplayClear | ATCwatch/display.cpp:249-254 | leaves the bus state as a 240 x 240 FillRect in the default colour |
| Display.Display.SendRegisters | ATCwatch/display.cpp:292-373 | appends exactly the trace of the register script, window unchanged |
| Display.Display.InitDisplay | ATCwatch/display.cpp:291-376 | leaves the bus state exactly as Init says |
| Display.Display.InitAndClear | ATCwatch/display.cpp:24-27 | leaves the bus state as Init followed by a full-panel FillRect in the default colour |
| Display.Display.DrawColumn | ATCwatch/display.cpp:176-182 | the inner loop leaves the bus state as the run of its row rects says |
| Display.Display.DrawGlyph | ATCwatch/display.cpp:174-187 | the rasterizer loops leave the bus state as the run of GlyphRects says |
| Display.Display.DrawChar | ATCwatch/display.cpp:29-188 | the bus state, the decoder globals and the return value are exactly those of Layout.DrawChar |
| Display.Display.PrintChar | ATCwatch/display.cpp:194-200 | one pass of the loop leaves the bus, the decoder and the loop variables as PrintStep says |
| Display.Display.DisplayPrintln | ATCwatch/display.cpp:190-202 | the bus state and the decoder globals are exactly those of Println |

## Left out

- Pins and timing: `pinMode`, `digitalWrite` on LCD_RESET and LCD_DET, `delay` and `enable_spi` are hardware I/O. Only the register-select and chip-select lines appear, as `Cmd` and `Begin`/`End`.
- The implementation of `write_fast_spi` (fast_spi.h) is not part of this model. Each call is one `Data` event with the given bytes, and so is each `spiWrite`.
- The contents of `font57` and `images.h` are not part of this model. The font is a constructor parameter of 1280 bytes, and an image is a caller's `seq<bv16>`.
- The `ST77XX_*` opcode values (in a header that is not part of this model) are the abstract `Opcodes` record.
- The default colour of `displayColor()` (declared in display.h) is the constructor parameter `defaultColor`.
- ATCwatch/menu_Home.h is not part of this model. It is a UI screen that only calls the driver.
- Arduino `String` is modelled as `seq<bv8>`, the bytes `text[f]` yields.
- Display.Display.StreamImage: `bufferPos` (line 217) is read without ever being set. The model assumes it starts at 0, the only value under which the caller's pixels are sent from their first one.
- Display.Display.DisplayPrintln: `tempPosition` is an `int`, and `tempPosition * 6` is a signed `int` product, which overflows (undefined behaviour in C) once `tempPosition` passes 357,913,941. The model treats `tempPosition` as unbounded, which holds for lines of fewer glyphs than that. The product with `size` is taken in uint32 arithmetic, as C converts it.
- Display.Display.SetAddrWindowDisplay: the local `temp` array of setAddrWindowDisplay and initDisplay is a sequence value built for each write, not a reused array. The bytes written are the same; which stale entries a reused array would hold is not captured.
- Display.Display.SendRegisters: initDisplay's register writes (lines 292-373) run from the table `Protocol.InitRegisters`, one `Cmd` and then one `Data` event per `spiWrite` or `write_fast_spi` call. The table lists those calls write for write. The method does not copy the straight-line code call for call, and it does not distinguish an `spiWrite(b)` from a one-byte `write_fast_spi`, since both put the same event on the bus.
- Display.Display.DrawChar: the rasterizer loops (lines 174-187) are the helper methods `DrawGlyph` (outer loop and spacing rect) and `DrawColumn` (inner loop).
- Display.Display.DisplayImage: the image loop (lines 218-232) is split the same way, into `StreamImage` (the do-while), `SendImageChunk` (one pass) and `PackImage` (memset and packing loop).
- Protocol.ImageStream: when `w * h` is 2^31 or more the uint32 byte count wraps, and the stream carries fewer than `w * h` pixels. The lemma states that smaller count, not `w * h`.
- Display.Display.DisplayImage and Display.Display.WriteFastSpi: the model demands that the caller's buffers be long enough for what the code reads: `PixelBytes(w, h) / 2 <= |image|` for displayImage, `n <= |buf|` for write_fast_spi. The C code does not check these and would read past the end of a shorter buffer; that out-of-bounds read is not modelled.
