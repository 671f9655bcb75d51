/** Pixels: colours packed into words and read back, and the rectangle copy that may overlap
    itself. */
module Framebuffer {
  import opened Arithmetic
  import opened Bits
  import opened Bytes

  // ---------------------------------------------------------------- colours

  datatype Color = Color(r: u8, g: u8, b: u8)

  const BLACK: Color := Color(0, 0, 0)

  /** Where one colour channel lies in a pixel word. */
  datatype Channel = Channel(shift: nat, size: nat)

  datatype Format = Format(red: Channel, green: Channel, blue: Channel)

  /** A channel of at most 8 bits inside the word. */
  predicate Fits(c: Channel) { c.size <= 8 && c.shift + c.size <= 32 }

  predicate Apart(c: Channel, d: Channel) { c.shift + c.size <= d.shift || d.shift + d.size <= c.shift }

  /** What a display reports: three channels that share no bit. */
  predicate WellFormed(f: Format) {
    && Fits(f.red) && Fits(f.green) && Fits(f.blue)
    && Apart(f.red, f.green) && Apart(f.red, f.blue) && Apart(f.green, f.blue)
  }

  /** The upper `size` bits of an 8-bit channel. */
  function Reduce(v: u8, size: nat): nat { Shr(v, if size <= 8 then 8 - size else 0) }

  /** A `size`-bit channel stretched to 8 bits. */
  function Expand(v: nat, size: nat): u8
    requires v < Pow2(size)
  {
    if size == 0 then 0
    else if size >= 8 then v % 256
    else
      ExpandBound(v, size);
      v * 255 / (Pow2(size) - 1)
  }

  /** Stretching scales to 255 and rounds down; nothing stays nothing and full stays full. */
  lemma {:induction false} ExpandScales(v: nat, size: nat)
    requires 0 < size <= 8 && v < Pow2(size)
    ensures Expand(v, size) * (Pow2(size) - 1) <= v * 255 < (Expand(v, size) + 1) * (Pow2(size) - 1)
    ensures Expand(0, size) == 0 && Expand(Pow2(size) - 1, size) == 255
  {
    ExpandBound(v, size);
    var d: nat := Pow2(size) - 1;
    assert Pow2(8) == 256;
    DivisionRounds(v * 255, d);
    QuotientOf(d * 255, d, 255, 0);
    QuotientOf(0, d, 0, 0);
    if size == 8 {
      QuotientOf(v * 255, 255, v, 0);
    }
  }

  lemma {:induction false} DivisionRounds(x: nat, d: nat)
    requires 0 < d
    ensures x / d * d <= x < (x / d + 1) * d
  {
    Distribute(x / d, 1, d);
  }

  lemma {:induction false} ExpandBound(v: nat, size: nat)
    requires v < Pow2(size) && size > 0
    ensures Pow2(size) >= 2 && 0 <= v * 255 / (Pow2(size) - 1) <= 255
  {
    assert Pow2(size) == 2 * Pow2(size - 1);
    Between(v * 255, Pow2(size) - 1, 0, v * 255, 256);
  }

  /** Stretching a channel and cutting it back gives the channel, for every mask size. */
  lemma {:induction false} ReduceUndoesExpand(v: nat, size: nat)
    requires size <= 8 && v < Pow2(size)
    ensures Reduce(Expand(v, size), size) == v
  {
    if size == 0 {
      ShrSmall(0, 8, 8);
    } else if size < 8 {
      var d, e := Pow2(size) - 1, Pow2(8 - size);
      ExpandBound(v, size);
      PowAdd(size, 8 - size);
      assert Pow2(8) == 256;
      StretchedBetween(v, d, e);
      ShrIsDiv(v * 255 / d, 8 - size);
      QuotientOf(v * 255 / d, e, v, v * 255 / d - v * e);
    } else {
      assert Pow2(8) == 256;
    }
  }

  /** With `d + 1` steps of width `e` covering 256, step `v` stretches into its own width. */
  lemma {:induction false} StretchedBetween(v: nat, d: nat, e: nat)
    requires 0 < d && v <= d && (d + 1) * e == 256
    ensures v * e <= v * 255 / d < v * e + e
  {
    CapProduct(v, d, e - 1);
    assert d * e + e == 256;
    Stretched(v, d, e);
    Between(v * 255, d, v * e, v * (e - 1), e);
  }

  lemma {:induction false} CapProduct(v: nat, d: nat, k: nat)
    requires v <= d
    ensures v * k <= d * k
  {
  }

  lemma {:induction false} Stretched(v: nat, d: nat, e: nat)
    requires d * e + e == 256 && 0 < e
    ensures v * 255 == (v * e) * d + v * (e - 1)
  {
    Distribute(d * e, e - 1, v);
    Regroup(v, d, e);
  }

  lemma {:induction false} Regroup(v: nat, d: nat, e: nat)
    ensures (d * e) * v == (v * e) * d
  {
  }

  lemma {:induction false} Between(x: nat, d: nat, p: nat, r: nat, e: nat)
    requires 0 < d && 0 < e && x == p * d + r && r <= d * (e - 1)
    ensures p <= x / d < p + e
  {
    var q := x / d;
    assert q * d <= x < q * d + d;
    if q < p {
      WholeStep(q, p, d);
    }
    if p + e <= q {
      WholeStep(p + e - 1, q, d);
      Distribute(p, e - 1, d);
    }
  }

  // ---------------------------------------------------------------- pixel words

  /** The channel's bits of a word. */
  function Field(w: nat, c: Channel): (v: nat)
    ensures v < Pow2(c.size)
  {
    LowBound(Shr(w, c.shift), c.size);
    Low(Shr(w, c.shift), c.size)
  }

  function Placed(v: nat, c: Channel): nat { v * Pow2(c.shift) }

  /** The word stored for a colour. */
  function Pack(f: Format, c: Color): nat {
    Or(Or(Placed(Reduce(c.r, f.red.size), f.red), Placed(Reduce(c.g, f.green.size), f.green)),
       Placed(Reduce(c.b, f.blue.size), f.blue))
  }

  /** The colour a word shows. */
  function Unpack(f: Format, w: nat): Color {
    Color(Expand(Field(w, f.red), f.red.size), Expand(Field(w, f.green), f.green.size),
          Expand(Field(w, f.blue), f.blue.size))
  }

  /** A channel's bits by division, and the upper bits of a colour by division. */
  lemma {:induction false} FieldIsQuotient(w: nat, c: Channel, v: u8)
    ensures Field(w, c) == w / Pow2(c.shift) % Pow2(c.size)
    ensures c.size <= 8 ==> Reduce(v, c.size) == v / Pow2(8 - c.size)
  {
    ShrIsDiv(w, c.shift);
    LowIsMod(Shr(w, c.shift), c.size);
    if c.size <= 8 {
      ShrIsDiv(v, 8 - c.size);
    }
  }

  lemma {:induction false} FieldOr(a: nat, b: nat, c: Channel)
    ensures Field(Or(a, b), c) == Or(Field(a, c), Field(b, c))
  {
    OrShr(a, b, c.shift);
    OrLow(Shr(a, c.shift), Shr(b, c.shift), c.size);
  }

  lemma {:induction false} FieldOfPlaced(v: nat, c: Channel)
    requires v < Pow2(c.size)
    ensures Field(Placed(v, c), c) == v
  {
    ShrOfShifted(v, c.shift);
    LowOfSmall(v, c.size);
  }

  lemma {:induction false} FieldElsewhere(v: nat, d: Channel, c: Channel)
    requires v < Pow2(d.size) && Apart(c, d)
    ensures Field(Placed(v, d), c) == 0
  {
    if d.shift + d.size <= c.shift {
      ShrBeyond(v, d.size, d.shift, c.shift);
      LowOfSmall(0, c.size);
    } else {
      LowBelow(v, d.shift, c.shift, c.size);
    }
  }

  lemma {:induction false} ReduceBound(v: u8, size: nat)
    requires size <= 8
    ensures Reduce(v, size) < Pow2(size)
  {
    ShrIsDiv(v, 8 - size);
    PowAdd(size, 8 - size);
    assert Pow2(8) == 256;
    QuotientBelow(v, Pow2(8 - size), Pow2(size));
  }

  lemma {:induction false} QuotientBelow(x: nat, p: nat, n: nat)
    requires 0 < p && x < n * p
    ensures x / p < n
  {
    if n < x / p {
      WholeStep(n, x / p, p);
    }
  }

  /** Each channel of a packed word is the reduced channel of the colour. */
  lemma {:induction false} FieldsOfPack(f: Format, c: Color)
    requires WellFormed(f)
    ensures Field(Pack(f, c), f.red) == Reduce(c.r, f.red.size)
    ensures Field(Pack(f, c), f.green) == Reduce(c.g, f.green.size)
    ensures Field(Pack(f, c), f.blue) == Reduce(c.b, f.blue.size)
  {
    hide Field, Placed, Reduce, Or;
    var r, g, b := Reduce(c.r, f.red.size), Reduce(c.g, f.green.size), Reduce(c.b, f.blue.size);
    ReduceBound(c.r, f.red.size);
    ReduceBound(c.g, f.green.size);
    ReduceBound(c.b, f.blue.size);
    FieldOfThree(r, f.red, g, f.green, b, f.blue, f.red);
    FieldOfThree(r, f.red, g, f.green, b, f.blue, f.green);
    FieldOfThree(r, f.red, g, f.green, b, f.blue, f.blue);
    FieldOfPlaced(r, f.red);
    FieldElsewhere(g, f.green, f.red);
    FieldElsewhere(b, f.blue, f.red);
    FieldOfPlaced(g, f.green);
    FieldElsewhere(r, f.red, f.green);
    FieldElsewhere(b, f.blue, f.green);
    FieldOfPlaced(b, f.blue);
    FieldElsewhere(r, f.red, f.blue);
    FieldElsewhere(g, f.green, f.blue);
    OrUnits(r);
    OrUnits(g);
    OrUnits(b);
  }

  lemma {:induction false} FieldOfThree(r: nat, cr: Channel, g: nat, cg: Channel, b: nat, cb: Channel, c: Channel)
    ensures Field(Or(Or(Placed(r, cr), Placed(g, cg)), Placed(b, cb)), c) ==
            Or(Or(Field(Placed(r, cr), c), Field(Placed(g, cg), c)), Field(Placed(b, cb), c))
  {
    FieldOr(Or(Placed(r, cr), Placed(g, cg)), Placed(b, cb), c);
    FieldOr(Placed(r, cr), Placed(g, cg), c);
  }

  lemma {:induction false} OrUnits(v: nat)
    ensures Or(v, 0) == v && Or(0, v) == v && Or(0, 0) == 0
  {
  }

  /** A pixel read and written back shows the same colour. */
  lemma {:induction false} RepackShowsSame(f: Format, w: nat)
    requires WellFormed(f)
    ensures Unpack(f, Pack(f, Unpack(f, w))) == Unpack(f, w)
  {
    hide Field, Reduce, Expand, Pack;
    FieldsOfPack(f, Unpack(f, w));
    ReduceUndoesExpand(Field(w, f.red), f.red.size);
    ReduceUndoesExpand(Field(w, f.green), f.green.size);
    ReduceUndoesExpand(Field(w, f.blue), f.blue.size);
  }

  /** Channel value `v` survives the format's precision. */
  ghost predicate Shows(v: u8, size: nat) { exists x :: 0 <= x < Pow2(size) && Expand(x, size) == v }

  /** A colour is read back as written exactly when the format can show each channel. */
  lemma {:induction false} ReadBackIff(f: Format, c: Color)
    requires WellFormed(f)
    ensures Unpack(f, Pack(f, c)) == c <==>
            Shows(c.r, f.red.size) && Shows(c.g, f.green.size) && Shows(c.b, f.blue.size)
  {
    hide Field, Reduce, Expand, Pack;
    FieldsOfPack(f, c);
    ShowsIff(c.r, f.red.size);
    ShowsIff(c.g, f.green.size);
    ShowsIff(c.b, f.blue.size);
  }

  lemma {:induction false} ShowsIff(v: u8, size: nat)
    requires size <= 8
    ensures Reduce(v, size) < Pow2(size)
    ensures Shows(v, size) <==> Expand(Reduce(v, size), size) == v
  {
    hide Reduce, Expand;
    ReduceBound(v, size);
    if Shows(v, size) {
      var x :| 0 <= x < Pow2(size) && Expand(x, size) == v;
      ReduceUndoesExpand(x, size);
    }
  }

  // ---------------------------------------------------------------- the screen

  /** A display: its visible size, words per row, colour depth and format. */
  datatype Display = Display(width: nat, height: nat, perRow: nat, bpp: nat, format: Format)

  type Picture = seq<nat>

  /** First word of row `y`. */
  function RowStart(d: Display, y: nat): nat {
    if y == 0 then 0 else RowStart(d, y - 1) + d.perRow
  }

  function Index(d: Display, x: nat, y: nat): nat { RowStart(d, y) + x }

  /** The index the driver computes. */
  lemma {:induction false} IndexIsProduct(d: Display, x: nat, y: nat)
    ensures Index(d, x, y) == y * d.perRow + x
  {
    if y > 0 {
      IndexIsProduct(d, x, y - 1);
      Distribute(y - 1, 1, d.perRow);
    }
  }

  lemma {:induction false} RowsFollow(d: Display, y: nat, y': nat)
    requires y < y'
    ensures RowStart(d, y) + d.perRow <= RowStart(d, y')
  {
    if y + 1 < y' {
      RowsFollow(d, y, y' - 1);
    }
  }

  /** Different positions of the buffer are different words. */
  lemma {:induction false} IndexInjective(d: Display, x: nat, y: nat, x': nat, y': nat)
    requires x < d.perRow && x' < d.perRow && Index(d, x, y) == Index(d, x', y')
    ensures x == x' && y == y'
  {
    if y < y' {
      RowsFollow(d, y, y');
    } else if y' < y {
      RowsFollow(d, y', y);
    }
  }

  /** A word for every position of the buffer, padding included. */
  ghost predicate Covers(d: Display, pic: Picture) {
    d.width <= d.perRow && |pic| == RowStart(d, d.height)
  }

  lemma {:induction false} IndexInside(d: Display, pic: Picture, x: nat, y: nat)
    requires Covers(d, pic) && x < d.perRow && y < d.height
    ensures Index(d, x, y) < |pic|
  {
    RowsFollow(d, y, d.height);
  }

  predicate Visible(d: Display, x: nat, y: nat) { x < d.width && y < d.height && d.bpp == 32 }

  /** The colour at a position; black off the screen and in unsupported depths. */
  ghost function Shown(d: Display, pic: Picture, x: nat, y: nat): Color {
    if Visible(d, x, y) && Index(d, x, y) < |pic| then Unpack(d.format, pic[Index(d, x, y)]) else BLACK
  }

  /** The picture after setting one pixel. */
  ghost function Painted(d: Display, pic: Picture, x: nat, y: nat, c: Color): Picture {
    if Visible(d, x, y) && Index(d, x, y) < |pic| then pic[Index(d, x, y) := Pack(d.format, c)] else pic
  }

  // ---------------------------------------------------------------- copying a rectangle

  /** A clipped copy of `width` by `height` pixels, and the order its loops take. */
  datatype Job = Job(srcX: nat, srcY: nat, dstX: nat, dstY: nat, width: nat, height: nat) {
    predicate Upwards() { dstY > srcY }

    predicate Leftwards() { dstX > srcX }
  }

  /** Column `c` of row `r` is copied before column `col` of row `row`. */
  predicate Before(j: Job, c: int, r: int, col: int, row: int) {
    || (if j.Upwards() then r > row else r < row)
    || (r == row && if j.Leftwards() then c > col else c < col)
  }

  predicate InDest(j: Job, x: nat, y: nat) {
    j.dstX <= x < j.dstX + j.width && j.dstY <= y < j.dstY + j.height
  }

  /** The word at (x, y) when everything before (col, row) has been copied: pixels of the
      destination that are done show what their source showed at the start, and every
      other word is the one it was. */
  ghost predicate WordIs(d: Display, was: Picture, pic: Picture, j: Job, col: int, row: int, x: nat, y: nat) {
    x < d.perRow && y < d.height && |pic| == |was| && Index(d, x, y) < |was| ==>
      if InDest(j, x, y) && Before(j, x - j.dstX, y - j.dstY, col, row)
      then Shown(d, pic, x, y) == Shown(d, was, x - j.dstX + j.srcX, y - j.dstY + j.srcY)
      else pic[Index(d, x, y)] == was[Index(d, x, y)]
  }

  ghost predicate CopiedTo(d: Display, was: Picture, pic: Picture, j: Job, col: int, row: int) {
    |pic| == |was| && forall x: nat, y: nat :: WordIs(d, was, pic, j, col, row, x, y)
  }

  /** The whole rectangle has been copied, as if all at once: each pixel of the clipped
      destination shows the colour its source pixel showed before, and no other word of
      the buffer has changed. */
  ghost predicate CopiedAt(d: Display, was: Picture, pic: Picture, j: Job, x: nat, y: nat) {
    x < d.perRow && y < d.height && |pic| == |was| && Index(d, x, y) < |was| ==>
      if InDest(j, x, y)
      then Shown(d, pic, x, y) == Shown(d, was, x - j.dstX + j.srcX, y - j.dstY + j.srcY)
      else pic[Index(d, x, y)] == was[Index(d, x, y)]
  }

  ghost predicate Copied(d: Display, was: Picture, pic: Picture, j: Job) {
    |pic| == |was| && forall x: nat, y: nat :: CopiedAt(d, was, pic, j, x, y)
  }

  /** The job lies on the screen. */
  ghost predicate OnScreen(d: Display, j: Job) {
    && j.srcX + j.width <= d.width && j.dstX + j.width <= d.width
    && j.srcY + j.height <= d.height && j.dstY + j.height <= d.height
  }

  /** The source of the next pixel has not been overwritten yet: no pixel of the
      destination that is done lies there. */
  lemma {:induction false} SourceUntouched(j: Job, col: nat, row: nat)
    requires col < j.width && row < j.height
    ensures !(InDest(j, j.srcX + col, j.srcY + row)
              && Before(j, j.srcX + col - j.dstX, j.srcY + row - j.dstY, col, row))
  {
  }

  /** Nothing comes before the first pixel, and everything before the end. */
  lemma {:induction false} CopyStarts(d: Display, was: Picture, j: Job, col: int, row: int)
    requires if j.Upwards() then row == j.height - 1 else row == 0
    requires if j.Leftwards() then col == j.width - 1 else col == 0
    ensures CopiedTo(d, was, was, j, col, row)
  {
    forall x: nat, y: nat
      ensures WordIs(d, was, was, j, col, row, x, y)
    {
    }
  }

  lemma {:induction false} CopyEnds(d: Display, was: Picture, pic: Picture, j: Job, col: int, row: int)
    requires CopiedTo(d, was, pic, j, col, row) && if j.Upwards() then row < 0 else row >= j.height
    ensures Copied(d, was, pic, j)
  {
    forall x: nat, y: nat
      ensures CopiedAt(d, was, pic, j, x, y)
    {
      assert WordIs(d, was, pic, j, col, row, x, y);
    }
  }

  /** Past the last column of a row is the first column of the next. */
  lemma {:induction false} NextRow(d: Display, was: Picture, pic: Picture, j: Job, col: int, row: int, col': int,
                                   row': int)
    requires CopiedTo(d, was, pic, j, col, row)
    requires if j.Upwards() then row' == row - 1 else row' == row + 1
    requires if j.Leftwards() then col < 0 && col' == j.width - 1 else col >= j.width && col' == 0
    ensures CopiedTo(d, was, pic, j, col', row')
  {
    forall x: nat, y: nat
      ensures WordIs(d, was, pic, j, col', row', x, y)
    {
      assert WordIs(d, was, pic, j, col, row, x, y);
    }
  }

  /** Copying one more pixel. */
  lemma {:induction false} NextPixel(d: Display, was: Picture, pic: Picture, pic': Picture, j: Job, col: nat,
                                     row: nat, col': int)
    requires Covers(d, was) && WellFormed(d.format) && OnScreen(d, j) && CopiedTo(d, was, pic, j, col, row)
    requires col < j.width && row < j.height && if j.Leftwards() then col' == col - 1 else col' == col + 1
    requires pic' == Painted(d, pic, j.dstX + col, j.dstY + row, Shown(d, pic, j.srcX + col, j.srcY + row))
    ensures CopiedTo(d, was, pic', j, col', row)
  {
    hide Unpack, Pack, WellFormed, Index;
    SourceSame(d, was, pic, j, col, row);
    forall x: nat, y: nat
      ensures WordIs(d, was, pic', j, col', row, x, y)
    {
      assert WordIs(d, was, pic, j, col, row, x, y);
      if x < d.perRow && y < d.height {
        if x == j.dstX + col && y == j.dstY + row {
          PaintedHere(d, was, pic, pic', j, col, row);
        } else {
          PaintedElsewhere(d, was, pic, j.dstX + col, j.dstY + row, Shown(d, pic, j.srcX + col, j.srcY + row), x, y);
        }
      }
    }
  }

  lemma {:induction false} SourceSame(d: Display, was: Picture, pic: Picture, j: Job, col: nat, row: nat)
    requires Covers(d, was) && OnScreen(d, j) && CopiedTo(d, was, pic, j, col, row) && col < j.width && row < j.height
    ensures Shown(d, pic, j.srcX + col, j.srcY + row) == Shown(d, was, j.srcX + col, j.srcY + row)
  {
    assert WordIs(d, was, pic, j, col, row, j.srcX + col, j.srcY + row);
    SourceUntouched(j, col, row);
    IndexInside(d, was, j.srcX + col, j.srcY + row);
  }

  lemma {:induction false} PaintedHere(d: Display, was: Picture, pic: Picture, pic': Picture, j: Job, col: nat,
                                       row: nat)
    requires Covers(d, was) && |pic| == |was| && WellFormed(d.format) && OnScreen(d, j) && col < j.width
             && row < j.height
    requires pic' == Painted(d, pic, j.dstX + col, j.dstY + row, Shown(d, pic, j.srcX + col, j.srcY + row))
    ensures |pic'| == |pic|
    ensures Shown(d, pic', j.dstX + col, j.dstY + row) == Shown(d, pic, j.srcX + col, j.srcY + row)
  {
    hide Unpack, Pack, WellFormed;
    IndexInside(d, was, j.dstX + col, j.dstY + row);
    IndexInside(d, was, j.srcX + col, j.srcY + row);
    if d.bpp == 32 {
      RepackShowsSame(d.format, pic[Index(d, j.srcX + col, j.srcY + row)]);
    }
  }

  lemma {:induction false} PaintedElsewhere(d: Display, was: Picture, pic: Picture, px: nat, py: nat, c: Color,
                                          x: nat, y: nat)
    requires Covers(d, was) && |pic| == |was| && x < d.perRow && y < d.height && px < d.perRow && py < d.height
    requires x != px || y != py
    ensures |Painted(d, pic, px, py, c)| == |pic| && Index(d, x, y) < |pic|
    ensures Painted(d, pic, px, py, c)[Index(d, x, y)] == pic[Index(d, x, y)]
    ensures Shown(d, Painted(d, pic, px, py, c), x, y) == Shown(d, pic, x, y)
  {
    hide Unpack, Pack;
    IndexInside(d, was, x, y);
    if Index(d, x, y) == Index(d, px, py) {
      IndexInjective(d, x, y, px, py);
    }
  }

  /** How many columns, or rows, of a copy lie on the screen. */
  function Clipped(src: nat, dst: nat, n: nat, limit: nat): nat {
    if src >= limit || dst >= limit then 0 else Min(n, Min(limit - src, limit - dst))
  }

  /** What a copy of `width` by `height` pixels makes of the word at (x, y): where the position is
      in the destination and on the screen, and so is its source, it shows what its source
      showed before; otherwise it is as before. */
  ghost predicate MovedAt(d: Display, was: Picture, pic: Picture, srcX: nat, srcY: nat, dstX: nat, dstY: nat,
                          width: nat, height: nat, x: nat, y: nat) {
    x < d.perRow && y < d.height && |pic| == |was| && Index(d, x, y) < |was| ==>
      if && dstX <= x < dstX + width && x < d.width && srcX + (x - dstX) < d.width
         && dstY <= y < dstY + height && srcY + (y - dstY) < d.height
      then Shown(d, pic, x, y) == Shown(d, was, srcX + (x - dstX), srcY + (y - dstY))
      else pic[Index(d, x, y)] == was[Index(d, x, y)]
  }

  /** Clipping leaves out exactly the pixels off the screen on either side. */
  lemma {:induction false} ClippedCopy(d: Display, was: Picture, pic: Picture, srcX: nat, srcY: nat, dstX: nat,
                                       dstY: nat, width: nat, height: nat)
    requires Copied(d, was, pic, Job(srcX, srcY, dstX, dstY, Clipped(srcX, dstX, width, d.width),
                                     Clipped(srcY, dstY, height, d.height)))
    ensures forall x: nat, y: nat :: MovedAt(d, was, pic, srcX, srcY, dstX, dstY, width, height, x, y)
  {
    hide Shown, Index;
    var j := Job(srcX, srcY, dstX, dstY, Clipped(srcX, dstX, width, d.width), Clipped(srcY, dstY, height, d.height));
    forall x: nat, y: nat
      ensures MovedAt(d, was, pic, srcX, srcY, dstX, dstY, width, height, x, y)
    {
      assert CopiedAt(d, was, pic, j, x, y);
    }
  }

  class Screen {
    const display: Display
    const pixels: array<nat>

    ghost predicate Valid()
      reads pixels
    {
      WellFormed(display.format) && Covers(display, pixels[..])
    }

    constructor (display: Display, pixels: array<nat>)
      requires WellFormed(display.format) && Covers(display, pixels[..])
      ensures Valid() && this.display == display && this.pixels == pixels
    {
      this.display, this.pixels := display, pixels;
    }

    method SetColor(x: nat, y: nat, c: Color)
      requires Valid()
      modifies pixels
      ensures Valid() && pixels[..] == Painted(display, old(pixels[..]), x, y, c)
    {
      hide Pack;
      if x >= display.width || y >= display.height || display.bpp != 32 {
        return;
      }
      IndexIsProduct(display, x, y);
      IndexInside(display, pixels[..], x, y);
      pixels[y * display.perRow + x] := Pack(display.format, c);
    }

    method GetColor(x: nat, y: nat) returns (c: Color)
      requires Valid()
      ensures c == Shown(display, pixels[..], x, y)
    {
      hide Unpack;
      if x >= display.width || y >= display.height || display.bpp != 32 {
        return BLACK;
      }
      IndexIsProduct(display, x, y);
      IndexInside(display, pixels[..], x, y);
      c := Unpack(display.format, pixels[y * display.perRow + x]);
    }

    /** One step of the copy. */
    method CopyPixel(j: Job, col: nat, row: nat, ghost was: Picture, ghost col': int)
      requires Valid() && Covers(display, was) && OnScreen(display, j)
               && CopiedTo(display, was, pixels[..], j, col, row)
      requires col < j.width && row < j.height && if j.Leftwards() then col' == col - 1 else col' == col + 1
      modifies pixels
      ensures Valid() && CopiedTo(display, was, pixels[..], j, col', row)
    {
      hide CopiedTo, Shown, Painted;
      var color := GetColor(j.srcX + col, j.srcY + row);
      SetColor(j.dstX + col, j.dstY + row, color);
      NextPixel(display, was, old(pixels[..]), pixels[..], j, col, row, col');
    }

    /** One row of the copy, from its right end when the destination lies to the right. */
    method CopyRow(j: Job, row: nat, ghost was: Picture)
      requires Valid() && Covers(display, was) && OnScreen(display, j) && row < j.height
      requires CopiedTo(display, was, pixels[..], j, if j.Leftwards() then j.width - 1 else 0, row)
      modifies pixels
      ensures Valid() && CopiedTo(display, was, pixels[..], j, if j.Leftwards() then -1 else j.width, row)
    {
      hide CopiedTo, Covers;
      if j.Leftwards() {
        var x := j.width;
        while x > 0
          invariant Valid() && 0 <= x <= j.width && CopiedTo(display, was, pixels[..], j, x - 1, row)
        {
          CopyPixel(j, x - 1, row, was, x - 2);
          x := x - 1;
        }
      } else {
        var col := 0;
        while col < j.width
          invariant Valid() && col <= j.width && CopiedTo(display, was, pixels[..], j, col, row)
        {
          CopyPixel(j, col, row, was, col + 1);
          col := col + 1;
        }
      }
    }

    /** All rows, from the bottom when the destination lies below. */
    method CopyRows(j: Job)
      requires Valid() && OnScreen(display, j)
      modifies pixels
      ensures Valid() && Copied(display, old(pixels[..]), pixels[..], j)
    {
      hide CopiedTo, Copied, Covers;
      ghost var was := pixels[..];
      ghost var first := if j.Leftwards() then j.width - 1 else 0;
      ghost var past := if j.Leftwards() then -1 else j.width as int;
      CopyStarts(display, was, j, first, if j.Upwards() then j.height - 1 else 0);
      if j.Upwards() {
        var y := j.height;
        while y > 0
          invariant Valid() && 0 <= y <= j.height && CopiedTo(display, was, pixels[..], j, first, y - 1)
        {
          CopyRow(j, y - 1, was);
          NextRow(display, was, pixels[..], j, past, y - 1, first, y - 2);
          y := y - 1;
        }
        CopyEnds(display, was, pixels[..], j, first, -1);
      } else {
        var row := 0;
        while row < j.height
          invariant Valid() && row <= j.height && CopiedTo(display, was, pixels[..], j, first, row)
        {
          CopyRow(j, row, was);
          NextRow(display, was, pixels[..], j, past, row, first, row + 1);
          row := row + 1;
        }
        CopyEnds(display, was, pixels[..], j, first, j.height);
      }
    }

    /** Copies a rectangle, clipped to the screen on both sides, whatever the overlap. */
    method CopyRect(srcX: nat, srcY: nat, dstX: nat, dstY: nat, width: nat, height: nat)
      requires Valid()
      modifies pixels
      ensures Valid() && |pixels[..]| == |old(pixels[..])|
      ensures forall x: nat, y: nat ::
                MovedAt(display, old(pixels[..]), pixels[..], srcX, srcY, dstX, dstY, width, height, x, y)
    {
      hide Covers, Shown, Index;
      CopyClipped(srcX, srcY, dstX, dstY, width, height);
      ClippedCopy(display, old(pixels[..]), pixels[..], srcX, srcY, dstX, dstY, width, height);
    }

    method CopyClipped(srcX: nat, srcY: nat, dstX: nat, dstY: nat, width: nat, height: nat)
      requires Valid()
      modifies pixels
      ensures Valid()
      ensures Copied(display, old(pixels[..]), pixels[..],
                     Job(srcX, srcY, dstX, dstY, Clipped(srcX, dstX, width, display.width),
                         Clipped(srcY, dstY, height, display.height)))
    {
      hide Covers, Shown;
      var w, h := width, height;
      if w == 0 || h == 0 || srcX >= display.width || dstX >= display.width
         || srcY >= display.height || dstY >= display.height {
        return;
      }
      if srcX + w > display.width {
        w := display.width - srcX;
      }
      if dstX + w > display.width {
        w := display.width - dstX;
      }
      if srcY + h > display.height {
        h := display.height - srcY;
      }
      if dstY + h > display.height {
        h := display.height - dstY;
      }
      if w == 0 || h == 0 {
        return;
      }
      CopyRows(Job(srcX, srcY, dstX, dstY, w, h));
    }
  }
}
