/** The glyph rasterizer of drawChar: one font glyph becomes a column-major run of
    displayRect calls, one square cell per font bit, plus a spacing column. */
module Raster {
  import opened Bus
  import opened Streamer
  import opened Protocol

  /** The arguments of one displayRect call. */
  datatype Rect = Rect(x: U32, y: U32, w: U32, h: U32, color: bv16)

  /** font57 holds five column bytes for each of the 256 glyph slots. */
  const FontLength: nat := 256 * 5

  /** The five column bytes of a glyph (`font57[c * 5 + i]` for i in 0..4). */
  function FontColumns(font: seq<bv8>, g: bv8): (cols: seq<bv8>)
    requires |font| == FontLength
    ensures |cols| == 5
    ensures forall i :: 0 <= i < 5 ==> cols[i] == font[g as nat * 5 + i]
  {
    font[g as nat * 5..g as nat * 5 + 5]
  }

  /** Every font read stays in the table: the last index of the last slot is 1279. */
  lemma FontReadsInTable(g: bv8, i: nat)
    requires i < 5
    ensures g as nat * 5 + i < FontLength
  {
  }

  /** The mask of bit j of a byte. */
  function Mask(j: nat): bv8
    requires j < 8
  {
    match j
    case 0 => 0x01
    case 1 => 0x02
    case 2 => 0x04
    case 3 => 0x08
    case 4 => 0x10
    case 5 => 0x20
    case 6 => 0x40
    case _ => 0x80
  }

  /** Bit j of a column byte, least significant bit the top row. */
  function Bit(line: bv8, j: nat): bool
    requires j < 8
  {
    line & Mask(j) != 0
  }

  /** The size x size cell of column i, row j of a glyph at (x, y), in uint32 arithmetic. */
  function CellRect(x: U32, y: U32, size: U32, i: nat, j: nat, color: bv16): Rect
  {
    Rect(Wrap32(x + i * size), Wrap32(y + j * size), size, size, color)
  }

  /** The cell drawn for one bit: the foreground when it is set, the background when it is
      clear and differs from the foreground, nothing otherwise. */
  function CellFor(x: U32, y: U32, size: U32, i: nat, j: nat, lit: bool, color: bv16, bg: bv16): seq<Rect>
  {
    if lit then [CellRect(x, y, size, i, j, color)]
    else if bg != color then [CellRect(x, y, size, i, j, bg)]
    else []
  }

  /** The inner loop of the rasterizer (lines 177-183) from row j on, `line` already
      shifted right j times. */
  function RowRects(x: U32, y: U32, size: U32, i: nat, line: bv8, j: nat, color: bv16, bg: bv16): seq<Rect>
    requires j <= 8
    decreases 8 - j
  {
    if j == 8 then []
    else CellFor(x, y, size, i, j, line & 1 == 1, color, bg) + RowRects(x, y, size, i, line >> 1, j + 1, color, bg)
  }

  /** The outer loop of the rasterizer (lines 175-184) from column i on. */
  function ColumnRects(x: U32, y: U32, size: U32, cols: seq<bv8>, i: nat, color: bv16, bg: bv16): seq<Rect>
    requires |cols| == 5 && i <= 5
    decreases 5 - i
  {
    if i == 5 then []
    else RowRects(x, y, size, i, cols[i], 0, color, bg) + ColumnRects(x, y, size, cols, i + 1, color, bg)
  }

  /** The spacing column right of the glyph (lines 185-187). */
  function Spacing(x: U32, y: U32, size: U32, color: bv16, bg: bv16): seq<Rect>
  {
    if bg != color then [Rect(Wrap32(x + 5 * size), y, size, Wrap32(8 * size), bg)] else []
  }

  /** Every displayRect call the rasterizer makes for one glyph, in order. */
  function GlyphRects(x: U32, y: U32, size: U32, cols: seq<bv8>, color: bv16, bg: bv16): seq<Rect>
    requires |cols| == 5
  {
    ColumnRects(x, y, size, cols, 0, color, bg) + Spacing(x, y, size, color, bg)
  }

  /** One column from row j on: at most one size x size cell per remaining row, all in
      column i, each in the foreground or the background colour, and one per row when the
      two colours differ. */
  lemma {:induction false} RowCount(x: U32, y: U32, size: U32, i: nat, line: bv8, j: nat, color: bv16, bg: bv16)
    requires j <= 8
    ensures var r := RowRects(x, y, size, i, line, j, color, bg);
      |r| <= 8 - j && (bg != color ==> |r| == 8 - j)
    ensures var r := RowRects(x, y, size, i, line, j, color, bg);
      forall k :: 0 <= k < |r| ==> r[k].x == Wrap32(x + i * size) && r[k].w == size && r[k].h == size
    ensures var r := RowRects(x, y, size, i, line, j, color, bg);
      forall k :: 0 <= k < |r| ==> r[k].color == color || r[k].color == bg
    decreases 8 - j
  {
    if j < 8 {
      RowCount(x, y, size, i, line >> 1, j + 1, color, bg);
    }
  }

  lemma {:induction false} ColumnsCount(x: U32, y: U32, size: U32, cols: seq<bv8>, i: nat, color: bv16, bg: bv16)
    requires |cols| == 5 && i <= 5
    ensures var r := ColumnRects(x, y, size, cols, i, color, bg);
      |r| <= 8 * (5 - i) && (bg != color ==> |r| == 8 * (5 - i))
    ensures var r := ColumnRects(x, y, size, cols, i, color, bg);
      forall k :: 0 <= k < |r| ==> r[k].color == color || r[k].color == bg
    decreases 5 - i
  {
    if i < 5 {
      RowCount(x, y, size, i, cols[i], 0, color, bg);
      ColumnsCount(x, y, size, cols, i + 1, color, bg);
    }
  }

  /** A glyph takes at most 41 displayRect calls, eight per font column and one for the
      spacing column, and exactly 41 when the background differs from the foreground; each
      call paints the foreground or the background colour. */
  lemma GlyphCount(x: U32, y: U32, size: U32, cols: seq<bv8>, color: bv16, bg: bv16)
    requires |cols| == 5
    ensures var g := GlyphRects(x, y, size, cols, color, bg);
      |g| <= 41 && (bg != color ==> |g| == 41)
    ensures var g := GlyphRects(x, y, size, cols, color, bg);
      forall k :: 0 <= k < |g| ==> g[k].color == color || g[k].color == bg
  {
    var g := GlyphRects(x, y, size, cols, color, bg);
    var c := ColumnRects(x, y, size, cols, 0, color, bg);
    var sp := Spacing(x, y, size, color, bg);
    ColumnsCount(x, y, size, cols, 0, color, bg);
    assert g == c + sp;
    CountJoin(g, c, sp, color, bg);
  }

  lemma CountJoin(g: seq<Rect>, c: seq<Rect>, sp: seq<Rect>, color: bv16, bg: bv16)
    requires g == c + sp
    requires |c| <= 40 && (bg != color ==> |c| == 40) && |sp| == (if bg != color then 1 else 0)
    requires forall k :: 0 <= k < |c| ==> c[k].color == color || c[k].color == bg
    requires forall k :: 0 <= k < |sp| ==> sp[k].color == bg
    ensures |g| <= 41 && (bg != color ==> |g| == 41)
    ensures forall k :: 0 <= k < |g| ==> g[k].color == color || g[k].color == bg
  {
    forall k | 0 <= k < |g| ensures g[k].color == color || g[k].color == bg {
      if k < |c| {
        assert g[k] == c[k];
      } else {
        assert g[k] == sp[k - |c|];
      }
    }
  }

  /** Shifting right by one moves every bit one row up. */
  lemma ShiftBit(line: bv8, j: nat)
    requires j < 7
    ensures Bit(line >> 1, j) == Bit(line, j + 1)
  {
    if j == 0 {
    } else if j == 1 {
    } else if j == 2 {
    } else if j == 3 {
    } else if j == 4 {
    } else if j == 5 {
    } else {
    }
  }

  /** One step of the inner loop: the low bit of `line` is bit j of the column, and
      `line >> 1` holds the bits of the rows below. */
  lemma NextRow(col: bv8, line: bv8, next: bv8, j: nat)
    requires j < 8 && next == line >> 1
    requires forall r :: 0 <= r < 8 - j ==> Bit(line, r) == Bit(col, j + r)
    ensures (line & 1 == 1) == Bit(col, j)
    ensures forall r :: 0 <= r < 8 - (j + 1) ==> Bit(next, r) == Bit(col, j + 1 + r)
  {
    assert Bit(line, 0) == Bit(col, j + 0);
    forall r | 0 <= r < 8 - (j + 1) ensures Bit(next, r) == Bit(col, j + 1 + r) {
      ShiftBit(line, r);
      assert Bit(line, r + 1) == Bit(col, j + (r + 1));
    }
  }

  lemma RowStep(x: U32, y: U32, size: U32, i: nat, line: bv8, j: nat, color: bv16, bg: bv16)
    requires j < 8
    ensures RowRects(x, y, size, i, line, j, color, bg)
         == CellFor(x, y, size, i, j, line & 1 == 1, color, bg) + RowRects(x, y, size, i, line >> 1, j + 1, color, bg)
  {
  }

  /** The colour a cell is drawn in when the background differs from the foreground. */
  function Tone(col: bv8, j: nat, color: bv16, bg: bv16): bv16
    requires j < 8
  {
    if Bit(col, j) then color else bg
  }

  /** Reference for one column of an opaque glyph: the cells of column i from row j down,
      every one drawn, in the foreground exactly where the bit is set. */
  function Column(x: U32, y: U32, size: U32, col: bv8, i: nat, j: nat, color: bv16, bg: bv16): (r: seq<Rect>)
    requires j <= 8
    ensures |r| == 8 - j
  {
    seq(8 - j, n requires 0 <= n < 8 - j => CellRect(x, y, size, i, j + n, Tone(col, j + n, color, bg)))
  }

  /** Reference for an opaque glyph: columns i, i + 1, ..., 4, left to right. */
  function Columns(x: U32, y: U32, size: U32, cols: seq<bv8>, i: nat, color: bv16, bg: bv16): (r: seq<Rect>)
    requires |cols| == 5 && i <= 5
    ensures |r| == 8 * (5 - i)
    decreases 5 - i
  {
    if i == 5 then [] else Column(x, y, size, cols[i], i, 0, color, bg) + Columns(x, y, size, cols, i + 1, color, bg)
  }

  lemma ColumnCons(x: U32, y: U32, size: U32, col: bv8, i: nat, j: nat, color: bv16, bg: bv16)
    requires j < 8
    ensures Column(x, y, size, col, i, j, color, bg)
         == [CellRect(x, y, size, i, j, Tone(col, j, color, bg))] + Column(x, y, size, col, i, j + 1, color, bg)
  {
    var a, b := Column(x, y, size, col, i, j, color, bg), Column(x, y, size, col, i, j + 1, color, bg);
    forall n | 0 <= n < 8 - j
      ensures a[n] == ([CellRect(x, y, size, i, j, Tone(col, j, color, bg))] + b)[n]
    {
      if n > 0 {
        assert b[n - 1] == CellRect(x, y, size, i, j + 1 + (n - 1), Tone(col, j + 1 + (n - 1), color, bg));
      }
    }
  }

  /** With a distinct background the inner loop, from row j on with `line` holding the bits
      of rows j and below of column byte `col`, draws the rest of column i. */
  lemma {:induction false} RowOpaque(x: U32, y: U32, size: U32, col: bv8, i: nat, line: bv8, j: nat, color: bv16, bg: bv16)
    requires j <= 8 && bg != color
    requires forall r :: 0 <= r < 8 - j ==> Bit(line, r) == Bit(col, j + r)
    ensures RowRects(x, y, size, i, line, j, color, bg) == Column(x, y, size, col, i, j, color, bg)
    decreases 8 - j
  {
    if j == 8 {
      assert Column(x, y, size, col, i, j, color, bg) == [];
    } else {
      var next := line >> 1;
      NextRow(col, line, next, j);
      RowOpaque(x, y, size, col, i, next, j + 1, color, bg);
      RowOpaqueStep(x, y, size, col, i, line, next, j, color, bg);
    }
  }

  lemma RowOpaqueStep(x: U32, y: U32, size: U32, col: bv8, i: nat, line: bv8, next: bv8, j: nat, color: bv16, bg: bv16)
    requires j < 8 && bg != color && next == line >> 1
    requires (line & 1 == 1) == Bit(col, j)
    requires RowRects(x, y, size, i, next, j + 1, color, bg) == Column(x, y, size, col, i, j + 1, color, bg)
    ensures RowRects(x, y, size, i, line, j, color, bg) == Column(x, y, size, col, i, j, color, bg)
  {
    var head := [CellRect(x, y, size, i, j, Tone(col, j, color, bg))];
    RowStep(x, y, size, i, line, j, color, bg);
    ColumnCons(x, y, size, col, i, j, color, bg);
    assert CellFor(x, y, size, i, j, line & 1 == 1, color, bg) == head;
    RewriteAppend(RowRects(x, y, size, i, line, j, color, bg), CellFor(x, y, size, i, j, line & 1 == 1, color, bg),
      RowRects(x, y, size, i, next, j + 1, color, bg), head, Column(x, y, size, col, i, j + 1, color, bg));
  }

  /** A column byte agrees with itself bit for bit: the inner loop starts on column byte i. */
  lemma BitsOfColumn(col: bv8)
    ensures forall r :: 0 <= r < 8 - 0 ==> Bit(col, r) == Bit(col, 0 + r)
  {
  }

  /** With a distinct background the outer loop from column i on draws columns i to 4. */
  lemma {:induction false} ColumnsOpaque(x: U32, y: U32, size: U32, cols: seq<bv8>, i: nat, color: bv16, bg: bv16)
    requires |cols| == 5 && i <= 5 && bg != color
    ensures ColumnRects(x, y, size, cols, i, color, bg) == Columns(x, y, size, cols, i, color, bg)
    decreases 5 - i
  {
    if i == 5 {
      assert Columns(x, y, size, cols, i, color, bg) == [];
    } else {
      ColumnsOpaque(x, y, size, cols, i + 1, color, bg);
      BitsOfColumn(cols[i]);
      RowOpaque(x, y, size, cols[i], i, cols[i], 0, color, bg);
      RewriteAppend(ColumnRects(x, y, size, cols, i, color, bg), RowRects(x, y, size, i, cols[i], 0, color, bg),
        ColumnRects(x, y, size, cols, i + 1, color, bg), Column(x, y, size, cols[i], i, 0, color, bg),
        Columns(x, y, size, cols, i + 1, color, bg));
    }
  }

  /** In the opaque reference, cell (c, r) is rect number 8 * (c - i) + r. */
  lemma {:induction false} ColumnsAt(x: U32, y: U32, size: U32, cols: seq<bv8>, i: nat, c: nat, r: nat, color: bv16, bg: bv16)
    requires |cols| == 5 && i <= c < 5 && r < 8
    ensures Columns(x, y, size, cols, i, color, bg)[8 * (c - i) + r] == CellRect(x, y, size, c, r, Tone(cols[c], r, color, bg))
    decreases 5 - i
  {
    var head, rest := Column(x, y, size, cols[i], i, 0, color, bg), Columns(x, y, size, cols, i + 1, color, bg);
    assert Columns(x, y, size, cols, i, color, bg) == head + rest;
    if c == i {
      assert head[r] == CellRect(x, y, size, c, 0 + r, Tone(cols[c], 0 + r, color, bg));
    } else {
      ColumnsAt(x, y, size, cols, i + 1, c, r, color, bg);
      assert 8 * (c - i) + r == 8 + (8 * (c - (i + 1)) + r);
    }
  }

  /** The whole glyph with a distinct background: columns 0 to 4 of eight cells each, top to
      bottom, each cell in the foreground exactly when its font bit is set, then the
      spacing column at x + 5 * size, size wide and 8 * size high. */
  lemma OpaqueGlyph(x: U32, y: U32, size: U32, cols: seq<bv8>, color: bv16, bg: bv16)
    requires |cols| == 5 && bg != color
    ensures GlyphRects(x, y, size, cols, color, bg)
         == Columns(x, y, size, cols, 0, color, bg) + [Rect(Wrap32(x + 5 * size), y, size, Wrap32(8 * size), bg)]
  {
    ColumnsOpaque(x, y, size, cols, 0, color, bg);
    RewriteAppend(GlyphRects(x, y, size, cols, color, bg), ColumnRects(x, y, size, cols, 0, color, bg),
      Spacing(x, y, size, color, bg), Columns(x, y, size, cols, 0, color, bg),
      [Rect(Wrap32(x + 5 * size), y, size, Wrap32(8 * size), bg)]);
  }

  /** The cells whose bit is set, from (i, j) on, in column-major order. */
  function SetBits(cols: seq<bv8>, i: nat, j: nat): seq<(nat, nat)>
    requires |cols| == 5 && i <= 5 && j <= 8
    decreases 5 - i, 8 - j
  {
    if i == 5 then []
    else if j == 8 then SetBits(cols, i + 1, 0)
    else (if Bit(cols[i], j) then [(i, j)] else []) + SetBits(cols, i, j + 1)
  }

  /** The column-major number of a cell. */
  function Key(p: (nat, nat)): nat
  {
    8 * p.0 + p.1
  }

  /** `ps` lists exactly the set bits at or after cell number 8 * i + j. */
  ghost predicate ListsSetBits(cols: seq<bv8>, i: nat, j: nat, ps: seq<(nat, nat)>)
    requires |cols| == 5
  {
    forall p :: p in ps <==> i <= p.0 < 5 && p.1 < 8 && 8 * i + j <= Key(p) && Bit(cols[p.0], p.1)
  }

  /** The set bits from (i, j) on are exactly the set bits at or after cell number 8 * i + j. */
  lemma {:induction false} SetBitsMembers(cols: seq<bv8>, i: nat, j: nat)
    requires |cols| == 5 && i <= 5 && j <= 8
    ensures ListsSetBits(cols, i, j, SetBits(cols, i, j))
    decreases 5 - i, 8 - j
  {
    if i == 5 {
      assert SetBits(cols, i, j) == [];
    } else if j == 8 {
      SetBitsMembers(cols, i + 1, 0);
      assert SetBits(cols, i, j) == SetBits(cols, i + 1, 0);
    } else {
      SetBitsMembers(cols, i, j + 1);
      MembersStep(cols, i, j);
    }
  }

  lemma MembersStep(cols: seq<bv8>, i: nat, j: nat)
    requires |cols| == 5 && i < 5 && j < 8
    requires ListsSetBits(cols, i, j + 1, SetBits(cols, i, j + 1))
    ensures ListsSetBits(cols, i, j, SetBits(cols, i, j))
  {
    SetBitsStep(cols, i, j);
    var rest := SetBits(cols, i, j + 1);
    forall p ensures p in SetBits(cols, i, j) <==>
      i <= p.0 < 5 && p.1 < 8 && 8 * i + j <= Key(p) && Bit(cols[p.0], p.1)
    {
      assert p in rest <==> i <= p.0 < 5 && p.1 < 8 && 8 * i + j + 1 <= Key(p) && Bit(cols[p.0], p.1);
      if p.1 < 8 && Key(p) == 8 * i + j {
        KeyUnique(p, i, j);
      }
    }
  }

  /** Distinct cells have distinct numbers. */
  lemma KeyUnique(p: (nat, nat), i: nat, j: nat)
    requires p.1 < 8 && j < 8 && Key(p) == 8 * i + j
    ensures p == (i, j)
  {
  }

  /** Strictly increasing column-major order, so no cell is listed twice. */
  predicate Increasing(ps: seq<(nat, nat)>)
  {
    forall a, b :: 0 <= a < b < |ps| ==> Key(ps[a]) < Key(ps[b])
  }

  lemma ConsIncreasing(p: (nat, nat), rest: seq<(nat, nat)>)
    requires Increasing(rest)
    requires forall q :: q in rest ==> Key(p) < Key(q)
    ensures Increasing([p] + rest)
  {
    var s := [p] + rest;
    forall a, b | 0 <= a < b < |s| ensures Key(s[a]) < Key(s[b]) {
      assert s[b] == rest[b - 1];
      if a == 0 {
        assert rest[b - 1] in rest;
      } else {
        assert s[a] == rest[a - 1];
      }
    }
  }

  /** The set bits are listed in strictly increasing column-major order. */
  lemma {:induction false} SetBitsIncreasing(cols: seq<bv8>, i: nat, j: nat)
    requires |cols| == 5 && i <= 5 && j <= 8
    ensures Increasing(SetBits(cols, i, j))
    decreases 5 - i, 8 - j
  {
    if i < 5 {
      if j == 8 {
        SetBitsIncreasing(cols, i + 1, 0);
      } else {
        SetBitsIncreasing(cols, i, j + 1);
        StepIncreasing(cols, i, j);
      }
    }
  }

  lemma StepIncreasing(cols: seq<bv8>, i: nat, j: nat)
    requires |cols| == 5 && i < 5 && j < 8
    requires Increasing(SetBits(cols, i, j + 1))
    ensures Increasing(SetBits(cols, i, j))
  {
    SetBitsStep(cols, i, j);
    if Bit(cols[i], j) {
      SetBitsMembers(cols, i, j + 1);
      ConsIncreasing((i, j), SetBits(cols, i, j + 1));
    }
  }

  lemma SetBitsStep(cols: seq<bv8>, i: nat, j: nat)
    requires |cols| == 5 && i < 5 && j < 8
    ensures Bit(cols[i], j) ==> SetBits(cols, i, j) == [(i, j)] + SetBits(cols, i, j + 1)
    ensures !Bit(cols[i], j) ==> SetBits(cols, i, j) == SetBits(cols, i, j + 1)
  {
    if !Bit(cols[i], j) {
      assert SetBits(cols, i, j) == [] + SetBits(cols, i, j + 1);
    }
  }

  /** Foreground cells of a list of positions. */
  function Lit(x: U32, y: U32, size: U32, ps: seq<(nat, nat)>, color: bv16): (r: seq<Rect>)
    ensures |r| == |ps|
  {
    seq(|ps|, n requires 0 <= n < |ps| => CellRect(x, y, size, ps[n].0, ps[n].1, color))
  }

  lemma LitAppend(x: U32, y: U32, size: U32, ps: seq<(nat, nat)>, qs: seq<(nat, nat)>, color: bv16)
    ensures Lit(x, y, size, ps + qs, color) == Lit(x, y, size, ps, color) + Lit(x, y, size, qs, color)
  {
    var a, b, c := Lit(x, y, size, ps + qs, color), Lit(x, y, size, ps, color), Lit(x, y, size, qs, color);
    forall n | 0 <= n < |ps| + |qs| ensures a[n] == (b + c)[n] {
      if n >= |ps| {
        assert (ps + qs)[n] == qs[n - |ps|];
      } else {
        assert (ps + qs)[n] == ps[n];
      }
    }
  }

  /** Transparent text, inner loop: with bg == color the rest of column i draws the
      foreground cell of each set bit of that column from row j on, in order. */
  lemma {:induction false} RowTransparent(x: U32, y: U32, size: U32, cols: seq<bv8>, i: nat, line: bv8, j: nat, color: bv16)
    requires |cols| == 5 && i < 5 && j <= 8
    requires forall r :: 0 <= r < 8 - j ==> Bit(line, r) == Bit(cols[i], j + r)
    ensures RowRects(x, y, size, i, line, j, color, color) + Lit(x, y, size, SetBits(cols, i + 1, 0), color)
         == Lit(x, y, size, SetBits(cols, i, j), color)
    decreases 8 - j
  {
    if j == 8 {
      assert SetBits(cols, i, j) == SetBits(cols, i + 1, 0);
      assert RowRects(x, y, size, i, line, j, color, color) == [];
    } else {
      var next := line >> 1;
      NextRow(cols[i], line, next, j);
      RowTransparent(x, y, size, cols, i, next, j + 1, color);
      RowTransparentStep(x, y, size, cols, i, line, next, j, color);
    }
  }

  lemma RowTransparentStep(x: U32, y: U32, size: U32, cols: seq<bv8>, i: nat, line: bv8, next: bv8, j: nat, color: bv16)
    requires |cols| == 5 && i < 5 && j < 8 && next == line >> 1
    requires (line & 1 == 1) == Bit(cols[i], j)
    requires RowRects(x, y, size, i, next, j + 1, color, color) + Lit(x, y, size, SetBits(cols, i + 1, 0), color)
          == Lit(x, y, size, SetBits(cols, i, j + 1), color)
    ensures RowRects(x, y, size, i, line, j, color, color) + Lit(x, y, size, SetBits(cols, i + 1, 0), color)
         == Lit(x, y, size, SetBits(cols, i, j), color)
  {
    var h := if Bit(cols[i], j) then [(i, j)] else [];
    var tail := SetBits(cols, i, j + 1);
    RowStep(x, y, size, i, line, j, color, color);
    SetBitsStep(cols, i, j);
    assert SetBits(cols, i, j) == h + tail;
    LitAppend(x, y, size, h, tail, color);
    assert CellFor(x, y, size, i, j, line & 1 == 1, color, color) == Lit(x, y, size, h, color);
    AppendHeads(RowRects(x, y, size, i, line, j, color, color), CellFor(x, y, size, i, j, line & 1 == 1, color, color),
      RowRects(x, y, size, i, next, j + 1, color, color), Lit(x, y, size, SetBits(cols, i + 1, 0), color),
      Lit(x, y, size, SetBits(cols, i, j), color), Lit(x, y, size, h, color), Lit(x, y, size, tail, color));
  }

  /** Transparent text, outer loop: from column i on, the foreground cells of the set bits. */
  lemma {:induction false} ColumnsTransparent(x: U32, y: U32, size: U32, cols: seq<bv8>, i: nat, color: bv16)
    requires |cols| == 5 && i <= 5
    ensures ColumnRects(x, y, size, cols, i, color, color) == Lit(x, y, size, SetBits(cols, i, 0), color)
    decreases 5 - i
  {
    if i == 5 {
      assert SetBits(cols, i, 0) == [];
    } else {
      ColumnsTransparent(x, y, size, cols, i + 1, color);
      BitsOfColumn(cols[i]);
      RowTransparent(x, y, size, cols, i, cols[i], 0, color);
      AppendTail(ColumnRects(x, y, size, cols, i, color, color), RowRects(x, y, size, i, cols[i], 0, color, color),
        ColumnRects(x, y, size, cols, i + 1, color, color), Lit(x, y, size, SetBits(cols, i + 1, 0), color),
        Lit(x, y, size, SetBits(cols, i, 0), color));
    }
  }

  /** The whole glyph drawn transparently: one foreground cell per set font bit, in
      column-major order, and no spacing column. */
  lemma TransparentGlyph(x: U32, y: U32, size: U32, cols: seq<bv8>, color: bv16)
    requires |cols| == 5
    ensures GlyphRects(x, y, size, cols, color, color) == Lit(x, y, size, SetBits(cols, 0, 0), color)
  {
    ColumnsTransparent(x, y, size, cols, 0, color);
    DropEmpty(GlyphRects(x, y, size, cols, color, color), ColumnRects(x, y, size, cols, 0, color, color),
      Spacing(x, y, size, color, color), Lit(x, y, size, SetBits(cols, 0, 0), color));
  }

  /** The bus state after a run of displayRect calls. */
  function ApplyRects(s: Lcd, rects: seq<Rect>): (r: Lcd)
    requires |s.buffer| == BufferLength
    ensures |r.buffer| == BufferLength
    decreases |rects|
  {
    if rects == [] then s
    else
      var q := rects[0];
      FillRectSends(s, q.x, q.y, q.w, q.h, q.color);
      ApplyRects(FillRect(s, q.x, q.y, q.w, q.h, q.color), rects[1..])
  }

  /** What a run of displayRect calls sends: each rect's transaction in order. */
  function RectsEvents(rects: seq<Rect>): seq<Event>
  {
    if rects == [] then []
    else
      var q := rects[0];
      RectEvents(q.x, q.y, q.w, q.h, q.color) + RectsEvents(rects[1..])
  }

  /** A run of rects appends their transactions and nothing else, and the bus is released
      between them. */
  lemma {:induction false} ApplyRectsSends(s: Lcd, rects: seq<Rect>)
    requires |s.buffer| == BufferLength
    ensures ApplyRects(s, rects).trace == s.trace + RectsEvents(rects)
    ensures Balanced(RectsEvents(rects), false)
    decreases |rects|
  {
    if rects != [] {
      var q := rects[0];
      FillRectSends(s, q.x, q.y, q.w, q.h, q.color);
      TransactionBalanced(RectEvents(q.x, q.y, q.w, q.h, q.color));
      ApplyRectsSends(FillRect(s, q.x, q.y, q.w, q.h, q.color), rects[1..]);
      BalancedAppend(RectEvents(q.x, q.y, q.w, q.h, q.color), RectsEvents(rects[1..]), false);
    }
  }

  lemma {:induction false} ApplyRectsAppend(s: Lcd, a: seq<Rect>, b: seq<Rect>)
    requires |s.buffer| == BufferLength
    ensures ApplyRects(s, a + b) == ApplyRects(ApplyRects(s, a), b)
    decreases |a|
  {
    if a == [] {
      assert a + b == b;
    } else {
      var q := a[0];
      var s1 := FillRect(s, q.x, q.y, q.w, q.h, q.color);
      FillRectSends(s, q.x, q.y, q.w, q.h, q.color);
      assert a + b == [q] + (a[1..] + b);
      assert a == [q] + a[1..];
      ApplyRectsCons(s, q, a[1..] + b);
      ApplyRectsCons(s, q, a[1..]);
      ApplyRectsAppend(s1, a[1..], b);
    }
  }

  lemma ApplyRectsCons(s: Lcd, q: Rect, rest: seq<Rect>)
    requires |s.buffer| == BufferLength
    ensures |FillRect(s, q.x, q.y, q.w, q.h, q.color).buffer| == BufferLength
    ensures ApplyRects(s, [q] + rest) == ApplyRects(FillRect(s, q.x, q.y, q.w, q.h, q.color), rest)
  {
    FillRectSends(s, q.x, q.y, q.w, q.h, q.color);
    assert ([q] + rest)[1..] == rest;
  }
}
