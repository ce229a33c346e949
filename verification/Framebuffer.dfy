// The framebuffer: rectangle copies with any overlap, fills and scrolling, byte for byte.
module Framebuffer {
  import opened Bits
  import opened Pixels

  // ---- Rows and columns of bytes ----

  /** Where row y starts: y times the pitch. */
  function RowStart(pitch: nat, y: nat): nat {
    if y == 0 then 0 else RowStart(pitch, y - 1) + pitch
  }

  lemma {:induction false} RowStartIs(pitch: nat, y: nat)
    ensures RowStart(pitch, y) == y * pitch
  {
    if y > 0 {
      RowStartIs(pitch, y - 1);
    }
  }

  /** The byte in column c of row y. */
  function Byte(buf: seq<u8>, pitch: nat, y: nat, c: nat): u8 {
    if RowStart(pitch, y) + c < |buf| then buf[RowStart(pitch, y) + c] else 0
  }

  lemma {:induction false} RowOrder(pitch: nat, y: nat, r: nat)
    requires y < r
    ensures RowStart(pitch, y) + pitch <= RowStart(pitch, r)
  {
    if y + 1 < r {
      RowOrder(pitch, y, r - 1);
    }
  }

  /** A span of one row meets another row's bytes nowhere. */
  lemma InRow(pitch: nat, y: nat, c: nat, r: nat, lo: nat, hi: nat)
    requires c < pitch && lo <= hi <= pitch
    ensures RowStart(pitch, r) + lo <= RowStart(pitch, y) + c < RowStart(pitch, r) + hi <==> y == r && lo <= c < hi
  {
    if y < r {
      RowOrder(pitch, y, r);
    } else if r < y {
      RowOrder(pitch, r, y);
    }
  }

  /** A rectangle of bytes: rows from y0 up to y1, columns from c0 up to c1. */
  datatype Rect = Rect(y0: nat, y1: nat, c0: nat, c1: nat)

  predicate Inside(r: Rect, y: nat, c: nat) { r.y0 <= y < r.y1 && r.c0 <= c < r.c1 }

  // ---- Copying ----

  /** `after` is `before` with len bytes copied from src to dst, as if through a snapshot. */
  ghost predicate Moved(before: seq<u8>, after: seq<u8>, src: nat, dst: nat, len: nat) {
    |after| == |before| && src + len <= |before| && dst + len <= |before| &&
    (forall k :: dst <= k < dst + len ==> after[k] == before[k - dst + src]) &&
    forall k :: 0 <= k < dst || dst + len <= k < |before| ==> after[k] == before[k]
  }

  /** `after` is `before` with rectangle `to` replaced by what was (dy, dc) away: its rows from `from` on. */
  ghost predicate Copied(before: seq<u8>, after: seq<u8>, pitch: nat, to: Rect, sy: nat, sc: nat) {
    |after| == |before| &&
    forall y: nat, c: nat {:trigger Byte(after, pitch, y, c)} :: c < pitch ==>
      Byte(after, pitch, y, c) ==
        if Inside(to, y, c) then Byte(before, pitch, y - to.y0 + sy, c - to.c0 + sc) else Byte(before, pitch, y, c)
  }

  lemma ByteMoved(before: seq<u8>, after: seq<u8>, pitch: nat, src: nat, dst: nat, len: nat, sy: nat, dy: nat, sc: nat, dc: nat,
                  y: nat, c: nat)
    requires Moved(before, after, src, dst, len) && src == RowStart(pitch, sy) + sc && dst == RowStart(pitch, dy) + dc
    requires c < pitch && sc + len <= pitch && dc + len <= pitch
    ensures Byte(after, pitch, y, c) ==
      if Inside(Rect(dy, dy + 1, dc, dc + len), y, c) then Byte(before, pitch, y - dy + sy, c - dc + sc) else Byte(before, pitch, y, c)
  {
    InRow(pitch, y, c, dy, dc, dc + len);
    if Inside(Rect(dy, dy + 1, dc, dc + len), y, c) {
      var k := c - dc;
      assert y - dy + sy == sy;
      assert RowStart(pitch, y) + c == dst + k && RowStart(pitch, sy) + (c - dc + sc) == src + k;
    }
  }

  /** One row moved is a rectangle one row high copied. */
  lemma {:induction false} RowCopied(before: seq<u8>, after: seq<u8>, pitch: nat, src: nat, dst: nat, sy: nat, dy: nat, sc: nat, dc: nat, len: nat)
    requires sc + len <= pitch && dc + len <= pitch && src == RowStart(pitch, sy) + sc && dst == RowStart(pitch, dy) + dc
    requires Moved(before, after, src, dst, len)
    ensures Copied(before, after, pitch, Rect(dy, dy + 1, dc, dc + len), sy, sc)
  {
    forall y: nat, c: nat {:trigger Byte(after, pitch, y, c)} | c < pitch
      ensures Byte(after, pitch, y, c) ==
        if Inside(Rect(dy, dy + 1, dc, dc + len), y, c) then Byte(before, pitch, y - dy + sy, c - dc + sc) else Byte(before, pitch, y, c)
    {
      ByteMoved(before, after, pitch, src, dst, len, sy, dy, sc, dc, y, c);
    }
  }

  /** What the row loop has done: the rows of `to` between lo and hi hold their source, all else is old. */
  ghost predicate RowsCopied(before: seq<u8>, now: seq<u8>, pitch: nat, to: Rect, sy: nat, sc: nat, lo: nat, hi: nat)
    requires to.y0 <= lo
  {
    Copied(before, now, pitch, Rect(lo, hi, to.c0, to.c1), lo - to.y0 + sy, sc)
  }

  /** One more row, when its source has not been written yet. */
  lemma {:induction false} OneMoreRow(before: seq<u8>, now: seq<u8>, after: seq<u8>, pitch: nat, to: Rect, sy: nat, sc: nat,
                   lo: nat, hi: nat, row: nat, lo': nat, hi': nat)
    requires to.y0 <= lo <= hi && to.c0 <= to.c1 <= pitch && sc + (to.c1 - to.c0) <= pitch && to.y0 <= row
    requires RowsCopied(before, now, pitch, to, sy, sc, lo, hi)
    requires Copied(now, after, pitch, Rect(row, row + 1, to.c0, to.c1), row - to.y0 + sy, sc)
    requires (row == hi && lo' == lo && hi' == hi + 1 && to.y0 < sy) || (row + 1 == lo && lo' == row && hi' == hi && to.y0 >= sy)
    ensures RowsCopied(before, after, pitch, to, sy, sc, lo', hi')
  {
    forall y: nat, c: nat {:trigger Byte(after, pitch, y, c)} | c < pitch
      ensures Byte(after, pitch, y, c) ==
        if Inside(Rect(lo', hi', to.c0, to.c1), y, c) then Byte(before, pitch, y - lo' + (lo' - to.y0 + sy), c - to.c0 + sc)
        else Byte(before, pitch, y, c)
    {
      if y == row && to.c0 <= c < to.c1 {
        var s := row - to.y0 + sy;
        assert Byte(after, pitch, y, c) == Byte(now, pitch, s, c - to.c0 + sc);
        assert !(lo <= s < hi);
      }
    }
  }

  /** The rows done after i of h, from the top or from the bottom. */
  function Low(up: bool, y: nat, h: nat, i: nat): nat
    requires i <= h
  {
    if up then y else y + h - i
  }

  function High(up: bool, y: nat, h: nat, i: nat): nat
    requires i <= h
  {
    if up then y + i else y + h
  }

  lemma NoRowYet(before: seq<u8>, pitch: nat, to: Rect, sy: nat, sc: nat, at: nat)
    requires to.y0 <= at
    ensures RowsCopied(before, before, pitch, to, sy, sc, at, at)
  {
  }

  lemma EveryRow(before: seq<u8>, after: seq<u8>, pitch: nat, to: Rect, sy: nat, sc: nat)
    requires RowsCopied(before, after, pitch, to, sy, sc, to.y0, to.y1)
    ensures Copied(before, after, pitch, to, sy, sc)
  {
  }

  // ---- Filling ----

  /** `after` is `before` with the rectangle filled with repeats of the code; the columns count from a whole pixel. */
  ghost predicate Filled(before: seq<u8>, after: seq<u8>, pitch: nat, at: Rect, code: seq<u8>)
    requires |code| > 0
  {
    |after| == |before| &&
    forall y: nat, c: nat {:trigger Byte(after, pitch, y, c)} :: c < pitch ==>
      Byte(after, pitch, y, c) == if Inside(at, y, c) then code[c % |code|] else Byte(before, pitch, y, c)
  }

  /** Bytes written over, from `at` on. */
  function Overwrite(buf: seq<u8>, at: nat, code: seq<u8>): (r: seq<u8>)
    requires at + |code| <= |buf|
    ensures |r| == |buf|
  {
    buf[..at] + code + buf[at + |code|..]
  }

  lemma PixelColumn(n: nat, px: nat, c: nat)
    requires n > 0 && px * n <= c < px * n + n
    ensures c % n == c - px * n
  {
    ModUnique(c, n, px, c - px * n);
  }

  /** A pixel written is a rectangle one pixel wide filled. */
  lemma {:induction false} PixelFilled(buf: seq<u8>, pitch: nat, height: nat, px: nat, py: nat, code: seq<u8>)
    requires |buf| == RowStart(pitch, height) && py < height && |code| > 0 && px * |code| + |code| <= pitch
    ensures RowStart(pitch, py) + px * |code| + |code| <= |buf|
    ensures Filled(buf, Overwrite(buf, RowStart(pitch, py) + px * |code|, code), pitch,
                   Rect(py, py + 1, px * |code|, px * |code| + |code|), code)
  {
    RowOrder(pitch, py, height);
    var at, n := px * |code|, |code|;
    var after := Overwrite(buf, RowStart(pitch, py) + at, code);
    forall y: nat, c: nat {:trigger Byte(after, pitch, y, c)} | c < pitch
      ensures Byte(after, pitch, y, c) ==
        if Inside(Rect(py, py + 1, at, at + n), y, c) then code[c % n] else Byte(buf, pitch, y, c)
    {
      InRow(pitch, y, c, py, at, at + n);
      if Inside(Rect(py, py + 1, at, at + n), y, c) {
        PixelColumn(n, px, c);
      }
    }
  }

  /** Two fills that together make up a rectangle. */
  lemma FillJoined(before: seq<u8>, now: seq<u8>, after: seq<u8>, pitch: nat, a: Rect, b: Rect, whole: Rect, code: seq<u8>)
    requires |code| > 0 && Filled(before, now, pitch, a, code) && Filled(now, after, pitch, b, code)
    requires forall y: nat, c: nat {:trigger Inside(whole, y, c)} :: Inside(whole, y, c) <==> Inside(a, y, c) || Inside(b, y, c)
    ensures Filled(before, after, pitch, whole, code)
  {
    forall y: nat, c: nat {:trigger Byte(after, pitch, y, c)} | c < pitch
      ensures Byte(after, pitch, y, c) == if Inside(whole, y, c) then code[c % |code|] else Byte(before, pitch, y, c)
    {
      assert Byte(now, pitch, y, c) == if Inside(a, y, c) then code[c % |code|] else Byte(before, pitch, y, c);
    }
  }

  // ---- The framebuffer ----

  class Framebuffer {
    const width: nat
    const height: nat
    const pitch: nat // bytes per row, padding included
    const format: PixelFormat
    const buffer: array<u8>

    predicate Valid()
      reads this
    {
      buffer.Length == RowStart(pitch, height) && width * BytesPerPixel(format) <= pitch
    }

    constructor (width: nat, height: nat, pitch: nat, format: PixelFormat)
      requires width * BytesPerPixel(format) <= pitch
      ensures Valid() && fresh(buffer)
      ensures this.width == width && this.height == height && this.pitch == pitch && this.format == format
    {
      this.width, this.height, this.pitch, this.format := width, height, pitch, format;
      RowStartIs(pitch, height);
      buffer := new u8[height * pitch](i => 0);
    }

    /** The bytes of a rectangle of pixels. */
    ghost function Area(x0: nat, y0: nat, x1: nat, y1: nat): Rect {
      Rect(y0, y1, x0 * BytesPerPixel(format), x1 * BytesPerPixel(format))
    }

    /** `copy_within` on the flat buffer, in the direction that reads each byte before it is overwritten. */
    method MoveBytes(src: nat, dst: nat, len: nat)
      requires src + len <= buffer.Length && dst + len <= buffer.Length
      modifies buffer
      ensures Moved(old(buffer[..]), buffer[..], src, dst, len)
    {
      ghost var before := buffer[..];
      if src < dst {
        var j := len;
        while j > 0
          invariant 0 <= j <= len
          invariant forall k :: dst + j <= k < dst + len ==> buffer[k] == before[k - dst + src]
          invariant forall k :: 0 <= k < dst + j || dst + len <= k < |before| ==> buffer[k] == before[k]
        {
          j := j - 1;
          buffer[dst + j] := buffer[src + j];
        }
      } else {
        var j := 0;
        while j < len
          invariant 0 <= j <= len
          invariant forall k :: dst <= k < dst + j ==> buffer[k] == before[k - dst + src]
          invariant forall k :: 0 <= k < dst || dst + j <= k < |before| ==> buffer[k] == before[k]
        {
          buffer[dst + j] := buffer[src + j];
          j := j + 1;
        }
      }
    }

    /** One row of a copy. */
    method CopyRow(sy: nat, dy: nat, sc: nat, dc: nat, len: nat)
      requires Valid() && sy < height && dy < height && sc + len <= pitch && dc + len <= pitch
      modifies buffer
      ensures Copied(old(buffer[..]), buffer[..], pitch, Rect(dy, dy + 1, dc, dc + len), sy, sc)
    {
      RowOrder(pitch, sy, height);
      RowOrder(pitch, dy, height);
      RowStartIs(pitch, sy);
      RowStartIs(pitch, dy);
      ghost var before := buffer[..];
      MoveBytes(sy * pitch + sc, dy * pitch + dc, len);
      RowCopied(before, buffer[..], pitch, sy * pitch + sc, dy * pitch + dc, sy, dy, sc, dc, len);
    }

    /** The rows of a copy, top down when the destination is above the source and bottom up otherwise. */
    method CopyRows(srcY: nat, dstY: nat, sc: nat, dc: nat, len: nat, h: nat)
      requires Valid() && srcY + h <= height && dstY + h <= height && sc + len <= pitch && dc + len <= pitch
      modifies buffer
      ensures Copied(old(buffer[..]), buffer[..], pitch, Rect(dstY, dstY + h, dc, dc + len), srcY, sc)
    {
      ghost var before, to := buffer[..], Rect(dstY, dstY + h, dc, dc + len);
      var copyUp := dstY < srcY;
      var i := 0;
      ghost var lo, hi := Low(copyUp, dstY, h, 0), High(copyUp, dstY, h, 0);
      NoRowYet(before, pitch, to, srcY, sc, lo);
      while i < h
        invariant i <= h && lo == Low(copyUp, dstY, h, i) && hi == High(copyUp, dstY, h, i)
        invariant RowsCopied(before, buffer[..], pitch, to, srcY, sc, lo, hi)
      {
        var yOffset := if copyUp then i else h - 1 - i;
        ghost var now, lo0, hi0 := buffer[..], lo, hi;
        CopyRow(srcY + yOffset, dstY + yOffset, sc, dc, len);
        i := i + 1;
        lo, hi := Low(copyUp, dstY, h, i), High(copyUp, dstY, h, i);
        OneMoreRow(before, now, buffer[..], pitch, to, srcY, sc, lo0, hi0, dstY + yOffset, lo, hi);
      }
      EveryRow(before, buffer[..], pitch, to, srcY, sc);
    }

    /** `copy_rect`: whatever the overlap, the destination ends as the source was before. */
    method CopyRect(srcX: nat, srcY: nat, dstX: nat, dstY: nat, w: nat, h: nat)
      requires Valid() && srcX + w <= width && dstX + w <= width && srcY + h <= height && dstY + h <= height
      modifies buffer
      ensures Copied(old(buffer[..]), buffer[..], pitch, Area(dstX, dstY, dstX + w, dstY + h), srcY, srcX * BytesPerPixel(format))
    {
      var n := BytesPerPixel(format);
      Columns(srcX, w, width, n, pitch);
      Columns(dstX, w, width, n, pitch);
      CopyRows(srcY, dstY, srcX * n, dstX * n, w * n, h);
    }

    /** `set_pixel`: nothing outside the screen, else exactly that pixel's bytes. */
    method SetPixel(x: nat, y: nat, color: Color)
      requires Valid()
      modifies buffer
      ensures x < width && y < height ==> Filled(old(buffer[..]), buffer[..], pitch, Area(x, y, x + 1, y + 1), Encode(color, format))
      ensures !(x < width && y < height) ==> buffer[..] == old(buffer[..])
    {
      if x < width && y < height {
        WritePixel(x, y, Encode(color, format));
      }
    }

    /** The bytes of one pixel. */
    method WritePixel(x: nat, y: nat, code: seq<u8>)
      requires Valid() && x < width && y < height && |code| == BytesPerPixel(format)
      modifies buffer
      ensures Filled(old(buffer[..]), buffer[..], pitch, Area(x, y, x + 1, y + 1), code)
    {
      var n := BytesPerPixel(format);
      Columns(x, 1, width, n, pitch);
      PixelFilled(buffer[..], pitch, height, x, y, code);
      RowStartIs(pitch, y);
      var offset := y * pitch + x * n;
      ghost var before := buffer[..];
      forall k | 0 <= k < n {
        buffer[offset + k] := code[k];
      }
      assert buffer[..] == Overwrite(before, offset, code);
    }

    /** One row of a fill. */
    method FillRow(y: nat, x0: nat, x1: nat, code: seq<u8>)
      requires Valid() && y < height && x0 <= x1 <= width && |code| == BytesPerPixel(format)
      modifies buffer
      ensures Filled(old(buffer[..]), buffer[..], pitch, Area(x0, y, x1, y + 1), code)
    {
      ghost var before := buffer[..];
      var x := x0;
      while x < x1
        invariant x0 <= x <= x1 && Filled(before, buffer[..], pitch, Area(x0, y, x, y + 1), code)
      {
        ghost var now := buffer[..];
        WritePixel(x, y, code);
        Wider(x0, x, |code|);
        FillJoined(before, now, buffer[..], pitch, Area(x0, y, x, y + 1), Area(x, y, x + 1, y + 1), Area(x0, y, x + 1, y + 1), code);
        x := x + 1;
      }
    }

    /** All rows of a fill. */
    method FillRows(x0: nat, y0: nat, x1: nat, y1: nat, code: seq<u8>)
      requires Valid() && x0 <= x1 <= width && y0 <= y1 <= height && |code| == BytesPerPixel(format)
      modifies buffer
      ensures Filled(old(buffer[..]), buffer[..], pitch, Area(x0, y0, x1, y1), code)
    {
      ghost var before := buffer[..];
      var y := y0;
      while y < y1
        invariant y0 <= y <= y1 && Filled(before, buffer[..], pitch, Area(x0, y0, x1, y), code)
      {
        ghost var now := buffer[..];
        FillRow(y, x0, x1, code);
        FillJoined(before, now, buffer[..], pitch, Area(x0, y0, x1, y), Area(x0, y, x1, y + 1), Area(x0, y0, x1, y + 1), code);
        y := y + 1;
      }
    }

    /** `fill_rect`: the part of the rectangle on the screen, and nothing else. */
    method FillRect(x: nat, y: nat, w: nat, h: nat, color: Color)
      requires Valid()
      modifies buffer
      ensures var x1, y1 := if x + w < width then x + w else width, if y + h < height then y + h else height;
              if x <= x1 && y <= y1 then Filled(old(buffer[..]), buffer[..], pitch, Area(x, y, x1, y1), Encode(color, format))
              else buffer[..] == old(buffer[..])
    {
      var x1 := if x + w < width then x + w else width;
      var y1 := if y + h < height then y + h else height;
      if x <= x1 && y <= y1 {
        FillRows(x, y, x1, y1, Encode(color, format));
      }
    }

    /** `clear`: every pixel, with data prepared for the 32-bit formats only; padding stays. */
    method Clear(color: Color)
      requires Valid()
      modifies buffer
      ensures Filled(old(buffer[..]), buffer[..], pitch, Area(0, 0, width, height), ClearCode(color, format))
    {
      FillRows(0, 0, width, height, ClearCode(color, format));
    }

    /** The rows of a scroll. */
    method ScrollRows(lines: nat, color: Color)
      requires Valid() && 0 < lines < height
      modifies buffer
      ensures Scrolled(old(buffer[..]), buffer[..], pitch, height, lines, width * BytesPerPixel(format), Encode(color, format))
    {
      ghost var before := buffer[..];
      CopyRect(0, lines, 0, 0, width, height - lines);
      ghost var now := buffer[..];
      FillRect(0, height - lines, width, lines, color);
      ghost var visible := width * BytesPerPixel(format);
      assert Area(0, 0, width, height - lines) == Rect(0, height - lines, 0, visible);
      assert Area(0, height - lines, width, height) == Rect(height - lines, height, 0, visible);
      ScrollBytes(before, now, buffer[..], pitch, height, lines, visible, Encode(color, format));
    }

    /** `scroll_up` by 0 < lines < height: row y + lines moves to row y and the bottom rows are filled. */
    method ScrollUp(lines: nat, color: Color)
      requires Valid()
      modifies buffer
      ensures lines == 0 || lines >= height ==>
        Filled(old(buffer[..]), buffer[..], pitch, Area(0, 0, width, height), ClearCode(color, format))
      ensures 0 < lines < height ==>
        Scrolled(old(buffer[..]), buffer[..], pitch, height, lines, width * BytesPerPixel(format), Encode(color, format))
    {
      if lines == 0 || lines >= height {
        Clear(color);
      } else {
        ScrollRows(lines, color);
      }
    }
  }

  lemma Columns(x: nat, w: nat, width: nat, n: nat, pitch: nat)
    requires x + w <= width && width * n <= pitch
    ensures x * n + w * n == (x + w) * n <= pitch
  {
    assert width * n == (x + w) * n + (width - x - w) * n;
  }

  lemma Wider(x0: nat, x: nat, n: nat)
    requires x0 <= x
    ensures x0 * n <= x * n <= (x + 1) * n == x * n + n
  {
    assert x * n == x0 * n + (x - x0) * n;
  }

  /** Every visible byte is the one `lines` rows below, or the fill; padding is untouched. */
  ghost predicate Scrolled(before: seq<u8>, after: seq<u8>, pitch: nat, height: nat, lines: nat, visible: nat, code: seq<u8>)
    requires |code| > 0
  {
    |after| == |before| &&
    forall y: nat, c: nat {:trigger Byte(after, pitch, y, c)} :: c < pitch && y < height ==>
      Byte(after, pitch, y, c) ==
        if c >= visible then Byte(before, pitch, y, c)
        else if y + lines < height then Byte(before, pitch, y + lines, c)
        else code[c % |code|]
  }

  lemma ScrollBytes(before: seq<u8>, now: seq<u8>, after: seq<u8>, pitch: nat, height: nat, lines: nat, visible: nat, code: seq<u8>)
    requires 0 < lines < height && |code| > 0
    requires Copied(before, now, pitch, Rect(0, height - lines, 0, visible), lines, 0)
    requires Filled(now, after, pitch, Rect(height - lines, height, 0, visible), code)
    ensures Scrolled(before, after, pitch, height, lines, visible, code)
  {
    forall y: nat, c: nat {:trigger Byte(after, pitch, y, c)} | c < pitch && y < height
      ensures Byte(after, pitch, y, c) ==
        if c >= visible then Byte(before, pitch, y, c)
        else if y + lines < height then Byte(before, pitch, y + lines, c)
        else code[c % |code|]
    {
      assert Byte(now, pitch, y, c) ==
        if Inside(Rect(0, height - lines, 0, visible), y, c) then Byte(before, pitch, y + lines, c) else Byte(before, pitch, y, c);
    }
  }
}
