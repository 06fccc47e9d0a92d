/** The character decoder of drawChar: a two-field state machine that passes printable
    ASCII through and folds the two-byte UTF-8 sequences (section 3 of RFC 3629) of a fixed
    set of German, Czech and Slovak letters, plus one emoji lead pair, into 8-bit font slots. */
module Decoder {
  import opened Bus

  datatype Option<T> = None | Some(value: T)

  /** The two globals `last_uni_char` (a lead byte is pending) and `last_char` (that byte).
      Clearing the flag leaves the byte as it was, as the source does. */
  datatype Decoder = Decoder(pending: bool, lead: bv8)

  /** The state before any byte was decoded: both globals are zero-initialised statics. */
  const Initial := Decoder(false, 0)

  /** The remap switch: the font slot of the pair (lead, trail), or None for an unsupported
      pair, which drawChar drops. */
  function Remap(lead: bv8, trail: bv8): (r: Option<bv8>)
    ensures r.Some? ==> r.value == 0x02 || r.value >= 0x80
  {
    if lead == 0xC3 then
      match trail
      case 0x84 => Some(0x8E)  // Ä
      case 0xA4 => Some(0x84)  // ä
      case 0x96 => Some(0x99)  // Ö
      case 0xB6 => Some(0x94)  // ö
      case 0x9C => Some(0x9A)  // Ü
      case 0xBC => Some(0x81)  // ü
      case 0x9F => Some(0xE1)  // ß
      case 0x81 => Some(0xB5)  // Á
      case 0xA1 => Some(0xA0)  // á
      case 0x89 => Some(0x90)  // É
      case 0xA9 => Some(0x82)  // é
      case 0x8D => Some(0xD6)  // Í
      case 0xAD => Some(0xA1)  // í
      case 0x93 => Some(0xE0)  // Ó
      case 0xB3 => Some(0xA2)  // ó
      case 0x9A => Some(0xE9)  // Ú
      case 0xBA => Some(0xE3)  // ú
      case 0x9D => Some(0xED)  // Ý
      case 0xBD => Some(0xEC)  // ý
      case _ => None
    else if lead == 0xC4 then
      match trail
      case 0x8C => Some(0x80)  // Č
      case 0x8D => Some(0x87)  // č
      case 0x8E => Some(0x9D)  // Ď
      case 0x8F => Some(0x9B)  // ď
      case 0x9A => Some(0xD2)  // Ě
      case 0x9B => Some(0x88)  // ě
      case _ => None
    else if lead == 0xC5 then
      match trail
      case 0xAE => Some(0xEA)  // Ů
      case 0xAF => Some(0x96)  // ů
      case 0x87 => Some(0xA5)  // Ň
      case 0x88 => Some(0xA4)  // ň
      case 0x98 => Some(0x92)  // Ř
      case 0x99 => Some(0x91)  // ř
      case 0xA0 => Some(0xB6)  // Š
      case 0xA1 => Some(0x83)  // š
      case 0xA4 => Some(0xD7)  // Ť
      case 0xA5 => Some(0x8C)  // ť
      case 0xBD => Some(0xE2)  // Ž
      case 0xBE => Some(0x93)  // ž
      case _ => None
    else if lead == 0xF0 && trail == 0x9F then
      Some(0x02)
    else
      None
  }

  /** The inverse of Remap, written from the glyph side: which two bytes select a slot. */
  function Encode(g: bv8): Option<(bv8, bv8)>
  {
    match g
    case 0x8E => Some((0xC3, 0x84))
    case 0x84 => Some((0xC3, 0xA4))
    case 0x99 => Some((0xC3, 0x96))
    case 0x94 => Some((0xC3, 0xB6))
    case 0x9A => Some((0xC3, 0x9C))
    case 0x81 => Some((0xC3, 0xBC))
    case 0xE1 => Some((0xC3, 0x9F))
    case 0xB5 => Some((0xC3, 0x81))
    case 0xA0 => Some((0xC3, 0xA1))
    case 0x90 => Some((0xC3, 0x89))
    case 0x82 => Some((0xC3, 0xA9))
    case 0xD6 => Some((0xC3, 0x8D))
    case 0xA1 => Some((0xC3, 0xAD))
    case 0xE0 => Some((0xC3, 0x93))
    case 0xA2 => Some((0xC3, 0xB3))
    case 0xE9 => Some((0xC3, 0x9A))
    case 0xE3 => Some((0xC3, 0xBA))
    case 0xED => Some((0xC3, 0x9D))
    case 0xEC => Some((0xC3, 0xBD))
    case 0x80 => Some((0xC4, 0x8C))
    case 0x87 => Some((0xC4, 0x8D))
    case 0x9D => Some((0xC4, 0x8E))
    case 0x9B => Some((0xC4, 0x8F))
    case 0xD2 => Some((0xC4, 0x9A))
    case 0x88 => Some((0xC4, 0x9B))
    case 0xEA => Some((0xC5, 0xAE))
    case 0x96 => Some((0xC5, 0xAF))
    case 0xA5 => Some((0xC5, 0x87))
    case 0xA4 => Some((0xC5, 0x88))
    case 0x92 => Some((0xC5, 0x98))
    case 0x91 => Some((0xC5, 0x99))
    case 0xB6 => Some((0xC5, 0xA0))
    case 0x83 => Some((0xC5, 0xA1))
    case 0xD7 => Some((0xC5, 0xA4))
    case 0x8C => Some((0xC5, 0xA5))
    case 0xE2 => Some((0xC5, 0xBD))
    case 0x93 => Some((0xC5, 0xBE))
    case 0x02 => Some((0xF0, 0x9F))
    case _ => None
  }

  /** Every pair the switch accepts is the encoding of the slot it selects. */
  lemma RemapThenEncode(lead: bv8, trail: bv8)
    requires Remap(lead, trail).Some?
    ensures Encode(Remap(lead, trail).value) == Some((lead, trail))
  {
    if lead == 0xC3 {
    } else if lead == 0xC4 {
    } else if lead == 0xC5 {
    }
  }

  /** Every encodable slot is reached by the switch from its encoding. */
  lemma EncodeThenRemap(g: bv8)
    requires Encode(g).Some?
    ensures Remap(Encode(g).value.0, Encode(g).value.1) == Some(g)
  {
    var e := Encode(g).value;
    if e.0 == 0xC3 {
    } else if e.0 == 0xC4 {
    } else if e.0 == 0xC5 {
    }
  }

  /** The switch never maps two pairs to the same slot. */
  lemma RemapInjective(l1: bv8, t1: bv8, l2: bv8, t2: bv8)
    requires Remap(l1, t1).Some? && Remap(l1, t1) == Remap(l2, t2)
    ensures l1 == l2 && t1 == t2
  {
    RemapThenEncode(l1, t1);
    RemapThenEncode(l2, t2);
  }

  /** Remapped slots never collide with printable ASCII: each is 0x02 or at least 0x80,
      and only the four lead bytes 0xC3, 0xC4, 0xC5 and 0xF0 have any mapping. */
  lemma RemapRange(lead: bv8, trail: bv8)
    requires Remap(lead, trail).Some?
    ensures Remap(lead, trail).value == 0x02 || Remap(lead, trail).value >= 0x80
    ensures lead == 0xC3 || lead == 0xC4 || lead == 0xC5 || lead == 0xF0
    ensures Remap(lead, trail).value == 0x02 <==> lead == 0xF0
  {
    if lead == 0xC3 {
    } else if lead == 0xC4 {
    } else if lead == 0xC5 {
    }
  }

  /** The only pair under lead byte 0xF0 is (0xF0, 0x9F), mapped to slot 0x02. */
  lemma RemapEmoji(trail: bv8)
    ensures Remap(0xF0, trail).Some? <==> trail == 0x9F
    ensures trail == 0x9F ==> Remap(0xF0, trail) == Some(0x02)
  {
  }

  /** The outcome of one byte: the next state and, when a glyph is to be drawn, its slot. */
  datatype Step = Step(next: Decoder, glyph: Option<bv8>)

  /** One call of drawChar seen from the decoder (lines 30-172). */
  function DecodeStep(d: Decoder, c: bv8): (r: Step)
    ensures c < 127 ==> r.next == d
    ensures c >= 127 ==> (r.next.pending <==> !d.pending)
    ensures r.glyph.Some? ==> Renderable(r.glyph.value)
  {
    if c < 32 then Step(d, None)
    else if c < 127 then Step(d, Some(c))
    else if !d.pending then Step(Decoder(true, c), None)
    else
      var g := Remap(d.lead, c);
      assert g.Some? ==> Renderable(g.value) by {
        if g.Some? { RemapThenEncode(d.lead, c); }
      }
      Step(Decoder(false, d.lead), g)
  }

  /** Control bytes draw nothing and leave both globals alone, even while a lead is pending. */
  lemma ControlByte(d: Decoder, c: bv8)
    requires c < 32
    ensures DecodeStep(d, c) == Step(d, None)
  {
  }

  /** Printable ASCII bytes are drawn as themselves and leave both globals alone. */
  lemma PrintableByte(d: Decoder, c: bv8)
    requires 32 <= c < 127
    ensures DecodeStep(d, c) == Step(d, Some(c))
  {
  }

  /** A byte of 127 or more with no lead pending becomes the lead and draws nothing. */
  lemma LeadByte(d: Decoder, c: bv8)
    requires c >= 127 && !d.pending
    ensures DecodeStep(d, c) == Step(Decoder(true, c), None)
  {
  }

  /** A byte of 127 or more with a lead pending always clears the flag, and a glyph is drawn
      exactly when the pair is one of the encodings, that encoding's slot. */
  lemma TrailingByte(d: Decoder, c: bv8)
    requires c >= 127 && d.pending
    ensures !DecodeStep(d, c).next.pending
    ensures DecodeStep(d, c).glyph.Some? <==> Remap(d.lead, c).Some?
    ensures forall g :: DecodeStep(d, c).glyph == Some(g) <==> Encode(g) == Some((d.lead, c))
  {
    forall g ensures DecodeStep(d, c).glyph == Some(g) <==> Encode(g) == Some((d.lead, c)) {
      if Encode(g) == Some((d.lead, c)) {
        EncodeThenRemap(g);
      }
      if DecodeStep(d, c).glyph == Some(g) {
        RemapThenEncode(d.lead, c);
      }
    }
  }

  /** The per-byte results of decoding a whole string, and the state it leaves behind. */
  datatype Run = Run(outs: seq<Option<bv8>>, final: Decoder)

  function DecodeRun(d: Decoder, text: seq<bv8>): (r: Run)
    ensures |r.outs| == |text|
    ensures forall k :: 0 <= k < |text| && r.outs[k].Some? ==> Renderable(r.outs[k].value)
    decreases |text|
  {
    if text == [] then Run([], d)
    else
      var s := DecodeStep(d, text[0]);
      var rest := DecodeRun(s.next, text[1..]);
      Run([s.glyph] + rest.outs, rest.final)
  }

  /** The drawn slots of a run, in order. */
  function Glyphs(outs: seq<Option<bv8>>): seq<bv8>
  {
    if outs == [] then []
    else (if outs[0].Some? then [outs[0].value] else []) + Glyphs(outs[1..])
  }

  lemma {:induction false} GlyphsAppend(a: seq<Option<bv8>>, b: seq<Option<bv8>>)
    ensures Glyphs(a + b) == Glyphs(a) + Glyphs(b)
  {
    if a == [] {
      assert a + b == b;
    } else {
      var t := a[1..];
      assert (a + b)[0] == a[0] && (a + b)[1..] == t + b;
      GlyphsAppend(t, b);
      var h := if a[0].Some? then [a[0].value] else [];
      AppendHeads(Glyphs(a), h, Glyphs(t), Glyphs(b), Glyphs(a + b), h, Glyphs(t + b));
    }
  }

  /** Decoding a concatenation is decoding the parts one after the other. */
  lemma {:induction false} DecodeRunAppend(d: Decoder, a: seq<bv8>, b: seq<bv8>)
    ensures DecodeRun(d, a + b).outs == DecodeRun(d, a).outs + DecodeRun(DecodeRun(d, a).final, b).outs
    ensures DecodeRun(d, a + b).final == DecodeRun(DecodeRun(d, a).final, b).final
    decreases |a|
  {
    if a == [] {
      assert a + b == b;
    } else {
      var st := DecodeStep(d, a[0]);
      assert (a + b)[0] == a[0];
      assert (a + b)[1..] == a[1..] + b;
      DecodeRunAppend(st.next, a[1..], b);
      var r := DecodeRun(st.next, a[1..]);
      assert DecodeRun(d, a + b).outs == [st.glyph] + DecodeRun(st.next, a[1..] + b).outs;
      assert DecodeRun(d, a).outs == [st.glyph] + r.outs;
      AppendAssoc([st.glyph], r.outs, DecodeRun(r.final, b).outs);
    }
  }

  /** A string of printable ASCII decodes to itself from any state, and a pending lead byte
      stays pending across it. */
  lemma {:induction false} AsciiPassesThrough(d: Decoder, text: seq<bv8>)
    requires forall k :: 0 <= k < |text| ==> 32 <= text[k] < 127
    ensures DecodeRun(d, text).final == d
    ensures forall k :: 0 <= k < |text| ==> DecodeRun(d, text).outs[k] == Some(text[k])
  {
    if text != [] {
      AsciiPassesThrough(d, text[1..]);
    }
  }

  /** The slots the font can be asked for from text: printable ASCII and the remapped ones. */
  predicate Renderable(g: bv8)
  {
    (32 <= g < 127) || Encode(g).Some?
  }

  /** The bytes a caller writes to get slot g drawn. */
  function EncodeGlyph(g: bv8): seq<bv8>
  {
    match Encode(g)
    case Some(p) => [p.0, p.1]
    case None => [g]
  }

  function EncodeText(gs: seq<bv8>): seq<bv8>
  {
    if gs == [] then [] else EncodeGlyph(gs[0]) + EncodeText(gs[1..])
  }

  /** The two bytes of an encoding: a lead of 127 or more, then its trail. */
  lemma EncodingBytes(g: bv8)
    requires Encode(g).Some?
    ensures Encode(g).value.0 >= 127 && Encode(g).value.1 >= 127
  {
  }

  /** A lead byte followed by a trailing byte, from an idle decoder. */
  lemma DecodePair(d: Decoder, lead: bv8, trail: bv8)
    requires !d.pending && lead >= 127 && trail >= 127
    ensures DecodeRun(d, [lead, trail]) == Run([None, Remap(lead, trail)], Decoder(false, lead))
  {
    var d1 := Decoder(true, lead);
    assert DecodeStep(d, lead) == Step(d1, None);
    assert [lead, trail][1..] == [trail];
    assert [trail][1..] == [];
    assert DecodeRun(d1, [trail]) == Run([Remap(lead, trail)], Decoder(false, lead));
  }

  lemma DecodeOneGlyph(d: Decoder, g: bv8)
    requires !d.pending && Renderable(g)
    ensures Glyphs(DecodeRun(d, EncodeGlyph(g)).outs) == [g]
    ensures !DecodeRun(d, EncodeGlyph(g)).final.pending
  {
    var e := Encode(g);
    if e.None? {
      assert EncodeGlyph(g) == [g];
      assert DecodeRun(d, [g]).outs == [Some(g)];
    } else {
      var lead, trail := e.value.0, e.value.1;
      EncodingBytes(g);
      EncodeThenRemap(g);
      assert EncodeGlyph(g) == [lead, trail];
      DecodePair(d, lead, trail);
      assert [None, Some(g)][1..] == [Some(g)];
      assert [Some(g)][1..] == [];
      assert Glyphs([Some(g)]) == [g];
    }
  }

  /** Round trip: writing renderable slots out as bytes and decoding them from an idle
      decoder gives back exactly those slots, and leaves the decoder idle. */
  lemma {:induction false} DecodeEncodeText(d: Decoder, gs: seq<bv8>)
    requires !d.pending
    requires forall k :: 0 <= k < |gs| ==> Renderable(gs[k])
    ensures Glyphs(DecodeRun(d, EncodeText(gs)).outs) == gs
    ensures !DecodeRun(d, EncodeText(gs)).final.pending
    decreases |gs|
  {
    if gs != [] {
      var head := EncodeGlyph(gs[0]);
      DecodeOneGlyph(d, gs[0]);
      var d1 := DecodeRun(d, head).final;
      DecodeEncodeText(d1, gs[1..]);
      DecodeRunAppend(d, head, EncodeText(gs[1..]));
      GlyphsAppend(DecodeRun(d, head).outs, DecodeRun(d1, EncodeText(gs[1..])).outs);
    }
  }
}
