/** The graphics pipe's buffers and drawing primitives
    (kernel/src/graphics/api/gpipe.c, kernel/src/graphics/api/gpipe_prim.c). */
module Gpipe {
  import opened Bytes
  import opened GpipeSpec
  import opened LineSpec

  /** Position of a pixel in a buffer with `pw` pixels per row. */
  function Index(pw: nat, px: nat, py: nat): nat { Product(py, pw) + px }

  lemma IndexInRange(pw: nat, height: nat, px: nat, py: nat)
    requires px < pw && py < height
    ensures Index(pw, px, py) < Product(height, pw)
  {
    ProductGap(py, height, pw);
  }

  lemma IndexInjective(pw: nat, px: nat, py: nat, qx: nat, qy: nat)
    requires px < pw && qx < pw && Index(pw, px, py) == Index(pw, qx, qy)
    ensures px == qx && py == qy
  {
    if py < qy {
      ProductGap(py, qy, pw);
    } else if qy < py {
      ProductGap(qy, py, pw);
    }
  }

  /** The colour of a pixel in a buffer; 0 off the buffer. */
  function Pix(s: seq<nat>, pw: nat, px: int, py: int): nat {
    if 0 <= px < pw && 0 <= py && Index(pw, px, py) < |s| then s[Index(pw, px, py)] else 0
  }

  /** Rows of `pw` pixels, one after the other. */
  lemma PixIs(s: seq<nat>, pw: nat, px: nat, py: nat)
    requires px < pw && py * pw + px < |s|
    ensures Pix(s, pw, px, py) == s[py * pw + px]
  {
    ProductIsMultiplication(py, pw);
  }

  function PictureOf(s: seq<nat>, pw: nat): Picture { (px, py) => Pix(s, pw, px, py) }

  /** Setting one cell changes one pixel. */
  lemma PixUpdate(s: seq<nat>, t: seq<nat>, pw: nat, px: nat, py: nat, c: nat)
    requires px < pw && Index(pw, px, py) < |s| && t == s[Index(pw, px, py) := c]
    ensures forall qx, qy :: Pix(t, pw, qx, qy) == if qx == px && qy == py then c else Pix(s, pw, qx, qy)
  {
    forall qx: int, qy: int
      ensures Pix(t, pw, qx, qy) == if qx == px && qy == py then c else Pix(s, pw, qx, qy)
    {
      if 0 <= qx < pw && 0 <= qy && Index(pw, qx, qy) == Index(pw, px, py) {
        IndexInjective(pw, qx, qy, px, py);
      }
    }
  }

  /** Channel `unit` of a colour: 1 is blue, 0x100 green, 0x1_0000 red and 0x100_0000 alpha. */
  function Channel(c: nat, unit: nat): (v: nat)
    requires unit > 0
    ensures v < 0x100
  {
    c / unit % 0x100
  }

  /** One channel of a blend. */
  function Mix(s: int, d: int, a: int): int { (s * a + d * (255 - a)) / 255 }

  /** gpipe_pixel_blend: source over destination, the alpha channel in the top byte of the source. */
  function Blend(dst: nat, src: nat): nat {
    var a := Channel(src, 0x100_0000);
    var r := Mix(Channel(src, 0x1_0000), Channel(dst, 0x1_0000), a) % 0x100;
    var g := Mix(Channel(src, 0x100), Channel(dst, 0x100), a) % 0x100;
    var b := Mix(Channel(src, 1), Channel(dst, 1), a) % 0x100;
    0x1_0000 * r + 0x100 * g + b
  }

  /** A mixed channel is the weighted mean, rounded down, and lies between the two. */
  lemma MixBounds(s: nat, d: nat, a: nat)
    requires s <= 255 && d <= 255 && a <= 255
    ensures var m := Mix(s, d, a);
      && 255 * m <= s * a + d * (255 - a) < 255 * m + 255
      && (if s <= d then s <= m <= d else d <= m <= s)
      && (a == 255 ==> m == s) && (a == 0 ==> m == d)
  {
    if s <= d {
      MulMono(s, d, a);
      MulMono(s, d, 255 - a);
    } else {
      MulMono(d, s, a);
      MulMono(d, s, 255 - a);
    }
  }

  /** Every channel of the result is the mean of the two by the source's alpha; full alpha gives the source's
      colour and none the destination's. */
  lemma BlendChannels(dst: nat, src: nat, unit: nat)
    requires unit == 1 || unit == 0x100 || unit == 0x1_0000
    ensures
      var a, s, d := Channel(src, 0x100_0000), Channel(src, unit), Channel(dst, unit);
      var m := Channel(Blend(dst, src), unit);
      && 255 * m <= s * a + d * (255 - a) < 255 * m + 255
      && (if s <= d then s <= m <= d else d <= m <= s)
      && (a == 255 ==> m == s) && (a == 0 ==> m == d)
    ensures Blend(dst, src) < 0x100_0000
  {
    hide Mix, Channel, Blend;
    BlendReads(dst, src, unit);
    MixBounds(Channel(src, unit), Channel(dst, unit), Channel(src, 0x100_0000));
  }

  lemma BlendReads(dst: nat, src: nat, unit: nat)
    requires unit == 1 || unit == 0x100 || unit == 0x1_0000
    ensures Channel(Blend(dst, src), unit) == Mix(Channel(src, unit), Channel(dst, unit), Channel(src, 0x100_0000))
    ensures Blend(dst, src) < 0x100_0000
  {
    hide Mix, Channel;
    var a := Channel(src, 0x100_0000);
    MixByte(Channel(src, 0x1_0000), Channel(dst, 0x1_0000), a);
    MixByte(Channel(src, 0x100), Channel(dst, 0x100), a);
    MixByte(Channel(src, 1), Channel(dst, 1), a);
    ThreeBytes(Mix(Channel(src, 0x1_0000), Channel(dst, 0x1_0000), a),
               Mix(Channel(src, 0x100), Channel(dst, 0x100), a), Mix(Channel(src, 1), Channel(dst, 1), a));
  }

  lemma MixByte(s: nat, d: nat, a: nat)
    requires s <= 255 && d <= 255 && a <= 255
    ensures 0 <= Mix(s, d, a) < 0x100
  {
    hide Mix;
    MixBounds(s, d, a);
  }

  lemma ThreeBytes(r: nat, g: nat, b: nat)
    requires r < 0x100 && g < 0x100 && b < 0x100
    ensures var c := 0x1_0000 * r + 0x100 * g + b;
      c < 0x100_0000 && Channel(c, 1) == b && Channel(c, 0x100) == g && Channel(c, 0x1_0000) == r
  {
  }

  function Signed32(v: word32): int { if v < 0x8000_0000 then v else v - 0x1_0000_0000 }

  /** A bitmap's geometry: `rowSize` bytes per stored row, the first row at `off`. */
  datatype Bitmap = Bitmap(w: nat, h: nat, topDown: bool, off: nat, rowSize: nat)
  datatype BmpResult = BmpOk(bmp: Bitmap) | TooSmall | BadMagic | BadBpp | Overflow

  /** The header checks of gpipe_bmp_draw, in their order. */
  function ParseBmp(d: seq<byte>): (r: BmpResult)
    ensures r.BmpOk? ==> 0 < r.bmp.w && 0 < r.bmp.h && 3 * r.bmp.w <= r.bmp.rowSize
    ensures r.BmpOk? ==> r.bmp.off + Product(r.bmp.h, r.bmp.rowSize) <= |d|
  {
    if |d| < 54 then TooSmall
    else if d[0] != 0x42 || d[1] != 0x4D then BadMagic
    else
      var w, hRaw, off := Signed32(LE32(d, 18)), Signed32(LE32(d, 22)), LE32(d, 10);
      if d[28] != 24 || d[29] != 0 then BadBpp
      else if w <= 0 then BadMagic
      else if hRaw == 0 || hRaw == -0x8000_0000 then BadMagic
      else
        var h := if hRaw < 0 then -hRaw else hRaw;
        var rowSize := (3 * w + 3) / 4 * 4;
        if off + Product(h, rowSize) > |d| then Overflow else BmpOk(Bitmap(w, h, hRaw < 0, off, rowSize))
  }

  /** The colour of column `cx` of stored row `row`. */
  function BmpColor(d: seq<byte>, b: Bitmap, cx: nat, row: nat): nat
    requires row < b.h && cx < b.w && 3 * b.w <= b.rowSize && b.off + Product(b.h, b.rowSize) <= |d|
  {
    ProductGap(row, b.h, b.rowSize);
    var p := b.off + Product(row, b.rowSize) + 3 * cx;
    var blue: nat, green: nat, red: nat := d[p], d[p + 1], d[p + 2];
    0x1_0000 * red + 0x100 * green + blue
  }

  /** The stored row that is shown on display row `line`: bottom-up unless the height was negative. */
  function StoredRow(b: Bitmap, line: int): int { if b.topDown then line else b.h - 1 - line }

  /** Which bytes of the file make up the pixel at column `cx` of display row `line`: blue, green, red, in rows
      that are stored from the bottom up unless the height field is negative. */
  lemma BmpPixel(d: seq<byte>, cx: nat, line: nat, row: nat, p: nat)
    requires ParseBmp(d).BmpOk? && cx < ParseBmp(d).bmp.w && line < ParseBmp(d).bmp.h
    requires row == if d[25] >= 128 then line else ParseBmp(d).bmp.h - 1 - line
    requires p == ParseBmp(d).bmp.off + row * ParseBmp(d).bmp.rowSize + 3 * cx
    ensures StoredRow(ParseBmp(d).bmp, line) == row && p + 3 <= |d|
    ensures var c := BmpColor(d, ParseBmp(d).bmp, cx, row);
      Channel(c, 1) == d[p] && Channel(c, 0x100) == d[p + 1] && Channel(c, 0x1_0000) == d[p + 2]
  {
    hide ParseBmp, Channel, Product;
    var b := ParseBmp(d).bmp;
    BmpHeader(d);
    ProductIsMultiplication(row, b.rowSize);
    ProductGap(row, b.h, b.rowSize);
    ThreeBytes(d[p + 2], d[p + 1], d[p]);
  }

  /** What the header says: little-endian fields at 10, 18 and 22, a row padded to a multiple of four. */
  lemma BmpHeader(d: seq<byte>)
    requires ParseBmp(d).BmpOk?
    ensures |d| >= 54
    ensures var b := ParseBmp(d).bmp;
      && b.off == d[10] as int + d[11] as int * 0x100 + d[12] as int * 0x1_0000 + d[13] as int * 0x100_0000
      && b.w == d[18] as int + d[19] as int * 0x100 + d[20] as int * 0x1_0000 + d[21] as int * 0x100_0000
      && (b.topDown <==> d[25] >= 128)
      && b.rowSize % 4 == 0 && 3 * b.w <= b.rowSize < 3 * b.w + 4
  {
  }

  /** Steps from `from` towards `to` along one axis. */
  function Along(from: int, to: int, v: int): int { if from < to then v - from else from - v }

  /** Exactly the visible points of `pts` have the colour, and every other pixel is as before. */
  ghost predicate Plotted(was: seq<nat>, now: seq<nat>, pw: nat, width: nat, height: nat, pts: seq<(int, int)>,
                          color: nat) {
    forall qx, qy ::
      Pix(now, pw, qx, qy) ==
        (if (qx, qy) in pts && 0 <= qx < width && 0 <= qy < height then color else Pix(was, pw, qx, qy))
  }

  /** What was dirty still is, and so is every visible point. */
  ghost predicate MarkedAll(was: Rect, now: Rect, width: nat, height: nat, pts: seq<(int, int)>) {
    && (forall qx, qy :: was.Has(qx, qy) ==> now.Has(qx, qy))
    && (forall qx, qy :: (qx, qy) in pts && 0 <= qx < width && 0 <= qy < height ==> now.Has(qx, qy))
  }

  lemma PlottedNone(s: seq<nat>, pw: nat, width: nat, height: nat, color: nat, dirty: Rect)
    ensures Plotted(s, s, pw, width, height, [], color) && MarkedAll(dirty, dirty, width, height, [])
  {
  }

  lemma PlottedMore(was: seq<nat>, now: seq<nat>, next: seq<nat>, pw: nat, width: nat, height: nat,
                    pts: seq<(int, int)>, color: nat, x: int, y: int)
    requires Plotted(was, now, pw, width, height, pts, color)
    requires forall qx, qy ::
      Pix(next, pw, qx, qy) ==
        (if qx == x && qy == y && 0 <= x < width && 0 <= y < height then color else Pix(now, pw, qx, qy))
    ensures Plotted(was, next, pw, width, height, pts + [(x, y)], color)
  {
    hide Pix;
  }

  lemma MarkedMore(was: Rect, now: Rect, width: nat, height: nat, pts: seq<(int, int)>, x: int, y: int)
    requires MarkedAll(was, now, width, height, pts) && now.Inside(width, height)
    ensures MarkedAll(was, Marked(now, Rect(x, y, 1, 1), width, height), width, height, pts + [(x, y)])
  {
    hide Marked;
  }

  /** Both coordinates fit a 32-bit integer. */
  predicate InInt32(x: int, y: int) { -0x8000_0000 <= x < 0x8000_0000 && -0x8000_0000 <= y < 0x8000_0000 }

  class Context {
    const width: nat
    const height: nat
    const pw: nat
    const back: array<nat>
    const fb: array<nat>
    var dirty: Rect

    ghost predicate Valid()
      reads this
    {
      && width <= pw && back != fb
      && back.Length == fb.Length == Product(height, pw)
      && dirty.Inside(width, height)
    }

    ghost function BackPicture(): Picture
      reads this, back
    {
      PictureOf(back[..], pw)
    }

    ghost function FbPicture(): Picture
      reads this, fb
    {
      PictureOf(fb[..], pw)
    }

    /** What the protocol sees of this context. */
    ghost function Snapshot(present: Present, owed: seq<Rect>): State
      reads this, back, fb
    {
      State(width, height, BackPicture(), FbPicture(), dirty, present, owed)
    }

    constructor (w: nat, h: nat, pitch: nat, front: array<nat>)
      requires w <= pitch && front.Length == Product(h, pitch)
      ensures Valid() && width == w && height == h && pw == pitch && fb == front && fresh(back) && dirty == NOTHING
      ensures forall i :: 0 <= i < back.Length ==> back[i] == 0
    {
      width, height, pw, fb, dirty := w, h, pitch, front, NOTHING;
      back := new nat[Product(h, pitch)](_ => 0);
    }

    method MarkDirty(x: int, y: int, w: int, h: int)
      requires Valid()
      modifies this`dirty
      ensures Valid() && dirty == Marked(old(dirty), Rect(x, y, w, h), width, height)
    {
      if w <= 0 || h <= 0 {
        return;
      }
      var x0, y0 := Clamp(x, 0, width), Clamp(y, 0, height);
      var x1, y1 := Clamp(x + w, 0, width), Clamp(y + h, 0, height);
      if x1 <= x0 || y1 <= y0 {
        return;
      }
      Extend(x0, y0, x1, y1);
    }

    /** The dirty rectangle grown to a visible rectangle, given by its corners. */
    method Extend(x0: int, y0: int, x1: int, y1: int)
      requires Valid() && 0 <= x0 < x1 <= width && 0 <= y0 < y1 <= height
      modifies this`dirty
      ensures Valid()
      ensures
        var r := Rect(x0, y0, x1 - x0, y1 - y0);
        dirty == if old(dirty).Empty() then r else Hull(old(dirty), r)
    {
      if dirty.w == 0 || dirty.h == 0 {
        dirty := Rect(x0, y0, x1 - x0, y1 - y0);
        return;
      }
      var dx0, dy0 := dirty.x, dirty.y;
      var dx1, dy1 := dirty.x + dirty.w, dirty.y + dirty.h;
      if x0 < dx0 { dx0 := x0; }
      if y0 < dy0 { dy0 := y0; }
      if x1 > dx1 { dx1 := x1; }
      if y1 > dy1 { dy1 := y1; }
      dirty := Rect(dx0, dy0, dx1 - dx0, dy1 - dy0);
    }

    method Pixel(x: int, y: int, color: nat)
      requires Valid()
      modifies this`dirty, back
      ensures Valid() && dirty == Marked(old(dirty), Rect(x, y, 1, 1), width, height)
      ensures forall qx, qy ::
        Pix(back[..], pw, qx, qy) ==
          (if qx == x && qy == y && 0 <= x < width && 0 <= y < height then color else Pix(old(back[..]), pw, qx, qy))
    {
      if x < 0 || x >= width || y < 0 || y >= height {
        return;
      }
      IndexInRange(pw, height, x, y);
      ghost var was := back[..];
      back[Index(pw, x, y)] := color;
      PixUpdate(was, back[..], pw, x, y, color);
      MarkDirty(x, y, 1, 1);
    }

    method PixelBlend(x: int, y: int, src: nat)
      requires Valid()
      modifies this`dirty, back
      ensures Valid() && dirty == Marked(old(dirty), Rect(x, y, 1, 1), width, height)
      ensures forall qx, qy ::
        Pix(back[..], pw, qx, qy) ==
          (if qx == x && qy == y && 0 <= x < width && 0 <= y < height then Blend(Pix(old(back[..]), pw, x, y), src)
           else Pix(old(back[..]), pw, qx, qy))
    {
      if x < 0 || x >= width || y < 0 || y >= height {
        return;
      }
      hide Blend, Marked;
      IndexInRange(pw, height, x, y);
      ghost var was := back[..];
      var dst := back[Index(pw, x, y)];
      back[Index(pw, x, y)] := Blend(dst, src);
      PixUpdate(was, back[..], pw, x, y, Blend(dst, src));
      MarkDirty(x, y, 1, 1);
    }

    /** One row of a fill. */
    method FillRow(row: nat, from: nat, n: nat, color: nat)
      requires Valid() && row < height && from + n <= pw
      modifies back
      ensures forall qx, qy ::
        Pix(back[..], pw, qx, qy) ==
          (if qy == row && from <= qx < from + n then color else Pix(old(back[..]), pw, qx, qy))
    {
      ghost var was := back[..];
      var col := 0;
      while col < n
        invariant 0 <= col <= n
        invariant forall qx, qy ::
          Pix(back[..], pw, qx, qy) == if qy == row && from <= qx < from + col then color else Pix(was, pw, qx, qy)
      {
        IndexInRange(pw, height, from + col, row);
        ghost var before := back[..];
        back[Index(pw, from + col, row)] := color;
        PixUpdate(before, back[..], pw, from + col, row, color);
        col := col + 1;
      }
    }

    method RectFill(x: int, y: int, w: int, h: int, color: nat)
      requires Valid()
      modifies this`dirty, back
      ensures Valid() && dirty == Marked(old(dirty), Rect(x, y, w, h), width, height)
      ensures forall qx, qy ::
        Pix(back[..], pw, qx, qy) ==
          (if Clip(Rect(x, y, w, h), width, height).Has(qx, qy) then color else Pix(old(back[..]), pw, qx, qy))
    {
      hide Pix, Hull;
      var c := Clip(Rect(x, y, w, h), width, height);
      if c == NOTHING {
        return;
      }
      ghost var was := back[..];
      var row := c.y;
      while row < c.y + c.h
        invariant c.y <= row <= c.y + c.h && Valid() && dirty == old(dirty)
        invariant forall qx, qy ::
          Pix(back[..], pw, qx, qy) == if c.Has(qx, qy) && qy < row then color else Pix(was, pw, qx, qy)
      {
        FillRow(row, c.x, c.w, color);
        row := row + 1;
      }
      MarkDirty(c.x, c.y, c.w, c.h);
    }

    method Clear(color: nat)
      requires Valid()
      modifies this`dirty, back
      ensures Valid() && dirty == Marked(old(dirty), Rect(0, 0, width, height), width, height)
      ensures forall qx, qy ::
        Pix(back[..], pw, qx, qy) ==
          (if 0 <= qx < pw && 0 <= qy < height then color else Pix(old(back[..]), pw, qx, qy))
    {
      hide Pix, Hull;
      ghost var was := back[..];
      var row := 0;
      while row < height
        invariant 0 <= row <= height && Valid() && dirty == old(dirty)
        invariant forall qx, qy ::
          Pix(back[..], pw, qx, qy) == if 0 <= qx < pw && 0 <= qy < row then color else Pix(was, pw, qx, qy)
      {
        FillRow(row, 0, pw, color);
        row := row + 1;
      }
      MarkDirty(0, 0, width, height);
    }

    /** One row of a bitmap, where it is visible. */
    method BmpRow(x: int, py: nat, d: seq<byte>, b: Bitmap, row: nat)
      requires Valid() && py < height && row < b.h
      requires 3 * b.w <= b.rowSize && b.off + Product(b.h, b.rowSize) <= |d|
      modifies back
      ensures forall qx, qy ::
        Pix(back[..], pw, qx, qy) ==
          (if qy == py && 0 <= qx < width && x <= qx < x + b.w then BmpColor(d, b, qx - x, row)
           else Pix(old(back[..]), pw, qx, qy))
    {
      hide BmpColor, Pix;
      ghost var was := back[..];
      var cx := 0;
      while cx < b.w
        invariant 0 <= cx <= b.w
        invariant forall qx, qy ::
          Pix(back[..], pw, qx, qy) ==
            (if qy == py && 0 <= qx < width && x <= qx < x + cx then BmpColor(d, b, qx - x, row)
             else Pix(was, pw, qx, qy))
      {
        var px := x + cx;
        if 0 <= px < width {
          IndexInRange(pw, height, px, py);
          ghost var before := back[..];
          var c := BmpColor(d, b, cx, row);
          back[Index(pw, px, py)] := c;
          PixUpdate(before, back[..], pw, px, py, c);
        }
        cx := cx + 1;
      }
    }

    /** gpipe_bmp_draw: a bitmap that passes the header checks is drawn pixel for pixel where it is
        visible and marked; any other changes nothing. */
    method BmpDraw(x: int, y: int, d: seq<byte>) returns (res: BmpResult)
      requires Valid()
      modifies this`dirty, back
      ensures Valid() && res == ParseBmp(d)
      ensures !res.BmpOk? ==> back[..] == old(back[..]) && dirty == old(dirty)
      ensures res.BmpOk? ==> dirty == Marked(old(dirty), Rect(x, y, res.bmp.w, res.bmp.h), width, height)
      ensures res.BmpOk? ==> forall qx, qy ::
        Pix(back[..], pw, qx, qy) ==
          (if 0 <= qx < width && 0 <= qy < height && Rect(x, y, res.bmp.w, res.bmp.h).Has(qx, qy)
           then BmpColor(d, res.bmp, qx - x, StoredRow(res.bmp, qy - y)) else Pix(old(back[..]), pw, qx, qy))
    {
      hide BmpColor, Pix, Marked, ParseBmp;
      res := ParseBmp(d);
      if !res.BmpOk? {
        return;
      }
      var b := res.bmp;
      ghost var was := back[..];
      var row := 0;
      while row < b.h
        invariant 0 <= row <= b.h && Valid() && dirty == old(dirty)
        invariant forall qx, qy ::
          Pix(back[..], pw, qx, qy) ==
            (if 0 <= qx < width && 0 <= qy < height && Rect(x, y, b.w, b.h).Has(qx, qy) && StoredRow(b, qy - y) < row
             then BmpColor(d, b, qx - x, StoredRow(b, qy - y)) else Pix(was, pw, qx, qy))
      {
        var py := y + if b.topDown then row else b.h - 1 - row;
        if 0 <= py < height {
          BmpRow(x, py, d, b, row);
        }
        row := row + 1;
      }
      MarkDirty(x, y, b.w, b.h);
    }

    /** gpipe_line: one point per step of the longer distance, from end to end, each within half a pixel
        of the ideal line; exactly the visible ones are coloured, and they are marked. */
    method Line(x0: int, y0: int, x1: int, y1: int, color: nat) returns (ghost pts: seq<(int, int)>)
      requires Valid()
      requires InInt32(x0, y0) && InInt32(x1, y1) && 3 * Max2(Abs(x1 - x0), Abs(y1 - y0)) < 0x8000_0000
      modifies this`dirty, back
      ensures Valid()
      ensures |pts| == Max2(Abs(x1 - x0), Abs(y1 - y0)) + 1 && pts[0] == (x0, y0) && pts[|pts| - 1] == (x1, y1)
      ensures forall t :: 0 <= t < |pts| ==>
        OnLine(Abs(x1 - x0), Abs(y1 - y0), t, Along(x0, x1, pts[t].0), Along(y0, y1, pts[t].1))
      ensures Plotted(old(back[..]), back[..], pw, width, height, pts, color)
      ensures MarkedAll(old(dirty), dirty, width, height, pts)
    {
      hide Pix, Marked, Off, OnLine, Plotted, MarkedAll;
      ghost var a, b := Abs(x1 - x0), Abs(y1 - y0);
      var dx, sx := Abs(x1 - x0), if x0 < x1 then 1 else -1;
      var dy: int, sy := 0 - Abs(y1 - y0), if y0 < y1 then 1 else -1;
      var err := dx + dy;
      var x, y := x0, y0;
      ghost var ix: int, iy: int := 0, 0;
      pts := [];
      LineStart(a, b);
      PlottedNone(back[..], pw, width, height, color, dirty);
      while true
        invariant Valid() && err == a - b + Off(a, b, ix, iy) && OnLine(a, b, |pts|, ix, iy)
        invariant x == x0 + (if sx == 1 then ix else -ix) && y == y0 + (if sy == 1 then iy else -iy)
        invariant |pts| == 0 <==> x == x0 && y == y0
        invariant |pts| > 0 ==> pts[0] == (x0, y0)
        invariant forall t :: 0 <= t < |pts| ==> OnLine(a, b, t, Along(x0, x1, pts[t].0), Along(y0, y1, pts[t].1))
        invariant Plotted(old(back[..]), back[..], pw, width, height, pts, color)
        invariant MarkedAll(old(dirty), dirty, width, height, pts)
        decreases Max2(a, b) - |pts|
      {
        LineBounds(a, b, |pts|, ix, iy);
        assert Along(x0, x1, x) == ix && Along(y0, y1, y) == iy;
        ghost var now, d := back[..], dirty;
        Pixel(x, y, color);
        PlottedMore(old(back[..]), now, back[..], pw, width, height, pts, color, x, y);
        MarkedMore(old(dirty), d, width, height, pts, x, y);
        pts := pts + [(x, y)];
        if x == x1 && y == y1 {
          break;
        }
        assert Abs(2 * err) <= 0x7FFF_FFFF;
        StepStaysOnLine(a, b, |pts| - 1, ix, iy, err);
        ix, iy := NextX(b, ix, err), NextY(a, iy, err);
        var e2 := 2 * err;
        if e2 >= dy {
          err := err + dy;
          x := x + sx;
        }
        if e2 <= dx {
          err := err + dx;
          y := y + sy;
        }
      }
    }

    method TakeDirty() returns (has: bool, rect: Rect)
      requires Valid()
      modifies this`dirty
      ensures Valid() && has == !old(dirty).Empty()
      ensures has ==> rect == old(dirty) && dirty == NOTHING
      ensures !has ==> dirty == old(dirty)
    {
      rect := NOTHING;
      if dirty.w <= 0 || dirty.h <= 0 {
        return false, rect;
      }
      rect, dirty := dirty, NOTHING;
      has := true;
    }

    /** gpipe_copy_row within gpipe_flip_rect: one row of a rectangle to the screen. */
    method CopyRow(rect: Rect, row: nat)
      requires Valid() && rect.Inside(width, height) && rect.y <= row < rect.y + rect.h
      modifies fb
      ensures forall qx, qy ::
        Pix(fb[..], pw, qx, qy) ==
          (if rect.Has(qx, qy) && qy == row then Pix(back[..], pw, qx, qy) else Pix(old(fb[..]), pw, qx, qy))
    {
      ghost var was := fb[..];
      var i := 0;
      while i < rect.w
        invariant 0 <= i <= rect.w
        invariant forall qx, qy ::
          Pix(fb[..], pw, qx, qy) ==
            (if rect.Has(qx, qy) && qy == row && qx < rect.x + i then Pix(back[..], pw, qx, qy)
             else Pix(was, pw, qx, qy))
      {
        IndexInRange(pw, height, rect.x + i, row);
        ghost var before := fb[..];
        var c := back[Index(pw, rect.x + i, row)];
        fb[Index(pw, rect.x + i, row)] := c;
        PixUpdate(before, fb[..], pw, rect.x + i, row, c);
        i := i + 1;
      }
    }

    method PresentRect(rect: Rect)
      requires Valid() && rect.Inside(width, height)
      modifies fb
      ensures forall qx, qy ::
        Pix(fb[..], pw, qx, qy) ==
          (if rect.Has(qx, qy) then Pix(back[..], pw, qx, qy) else Pix(old(fb[..]), pw, qx, qy))
    {
      hide Pix;
      if rect.w <= 0 || rect.h <= 0 {
        return;
      }
      ghost var was := fb[..];
      var row := rect.y;
      while row < rect.y + rect.h
        invariant rect.y <= row <= rect.y + rect.h
        invariant forall qx, qy ::
          Pix(fb[..], pw, qx, qy) ==
            (if rect.Has(qx, qy) && qy < row then Pix(back[..], pw, qx, qy) else Pix(was, pw, qx, qy))
      {
        CopyRow(rect, row);
        row := row + 1;
      }
    }

    /** Any drawing call, at any moment of the protocol: no pixel that differs from the screen is lost. */
    method Draw(call: DrawCall, ghost present: Present, ghost owed: seq<Rect>)
      requires Valid() && NothingLost(Snapshot(present, owed)) && (call.LineTo? ==> call.Bounded())
      modifies this`dirty, back
      ensures Valid() && NothingLost(Snapshot(present, owed))
    {
      hide Pix, Marked, Clip, NothingLost;
      ghost var was, d := back[..], dirty;
      match call {
        case PixelAt(x, y, color) =>
          Pixel(x, y, color);
          MarkedHas(d, Rect(x, y, 1, 1), width, height);
        case BlendAt(x, y, src) =>
          PixelBlend(x, y, src);
          MarkedHas(d, Rect(x, y, 1, 1), width, height);
        case FillAt(x, y, w, h, color) =>
          RectFill(x, y, w, h, color);
          MarkedHas(d, Rect(x, y, w, h), width, height);
          ClipHas(Rect(x, y, w, h), width, height);
        case ClearTo(color) =>
          Clear(color);
          MarkedHas(d, Rect(0, 0, width, height), width, height);
        case BmpAt(x, y, data) =>
          var res := BmpDraw(x, y, data);
          if res.BmpOk? {
            MarkedHas(d, Rect(x, y, res.bmp.w, res.bmp.h), width, height);
          }
        case LineTo(x0, y0, x1, y1, color) =>
          ghost var pts := Line(x0, y0, x1, y1, color);
      }
      DrawnKeeps(Snapshot(present, owed).(back := PictureOf(was, pw), dirty := d), Snapshot(present, owed));
    }

    /** One uninterrupted round of the compositor: the dirty rectangle is taken and presented. When no drawing
        call is half done the screen then shows the back buffer. */
    method Compose(ghost owed: seq<Rect>)
      requires Valid() && NothingLost(Snapshot(Idle, owed))
      modifies this`dirty, fb
      ensures Valid() && NothingLost(Snapshot(Idle, owed))
      ensures owed == [] ==> forall px, py :: 0 <= px < width && 0 <= py < height ==>
        Pix(fb[..], pw, px, py) == Pix(back[..], pw, px, py)
    {
      hide Pix;
      ghost var s := Snapshot(Idle, owed);
      forall px, py | owed == [] && 0 <= px < width && 0 <= py < height && !dirty.Has(px, py)
        ensures Pix(fb[..], pw, px, py) == Pix(back[..], pw, px, py)
      {
        assert s.Visible(px, py) && s.fb(px, py) == Pix(fb[..], pw, px, py);
      }
      var has, rect := TakeDirty();
      if has {
        PresentRect(rect);
      }
    }
  }

  /** The drawing calls. */
  datatype DrawCall =
    | PixelAt(x: int, y: int, color: nat)
    | BlendAt(x: int, y: int, src: nat)
    | FillAt(x: int, y: int, w: int, h: int, color: nat)
    | ClearTo(color: nat)
    | BmpAt(x: int, y: int, data: seq<byte>)
    | LineTo(x0: int, y0: int, x1: int, y1: int, color: nat)
  {
    predicate Bounded()
      requires LineTo?
    {
      InInt32(x0, y0) && InInt32(x1, y1) && 3 * Max2(Abs(x1 - x0), Abs(y1 - y0)) < 0x8000_0000
    }
  }

  lemma MarkedHas(d: Rect, r: Rect, width: nat, height: nat)
    requires d.Inside(width, height)
    ensures forall px, py :: d.Has(px, py) ==> Marked(d, r, width, height).Has(px, py)
    ensures forall px, py :: 0 <= px < width && 0 <= py < height && r.Has(px, py) ==>
      Marked(d, r, width, height).Has(px, py)
  {
  }

  lemma ClipHas(r: Rect, width: nat, height: nat)
    ensures forall px, py :: Clip(r, width, height).Has(px, py) ==> r.Has(px, py)
  {
  }

  /** Drawing that marks what it changes, and unmarks nothing, loses nothing. */
  lemma DrawnKeeps(s: State, t: State)
    requires NothingLost(s) && t == s.(back := t.back, dirty := t.dirty) && t.dirty.Inside(t.width, t.height)
    requires forall px, py :: s.dirty.Has(px, py) ==> t.dirty.Has(px, py)
    requires forall px, py :: s.Visible(px, py) && t.back(px, py) != s.back(px, py) ==> t.dirty.Has(px, py)
    ensures NothingLost(t)
  {
  }
}
