// Colours and their encodings in each pixel format.
module Pixels {
  import opened Bits

  datatype PixelFormat = Argb32 | Bgra32 | Rgba32 | Rgb24 | Bgr24 | Rgb565 | Indexed8

  datatype Color = Color(r: u8, g: u8, b: u8, a: u8)

  function BytesPerPixel(f: PixelFormat): (n: nat)
    ensures 1 <= n <= 4
  {
    match f
    case Argb32 | Bgra32 | Rgba32 => 4
    case Rgb24 | Bgr24 => 3
    case Rgb565 => 2
    case Indexed8 => 1
  }

  /** `to_rgb565`; its fields do not overlap, so their bitwise or is their sum. */
  function ToRgb565(c: Color): (v: nat)
    ensures v < TWO_16
  {
    c.r / 8 * 2048 + c.g / 4 * 32 + c.b / 8
  }

  function FromRgb565(v: nat): Color
    requires v < TWO_16
  {
    Color(v / 2048 * 8, v / 32 % 64 * 4, v % 32 * 8, 255)
  }

  /** The bytes `write_pixel_to_buffer` writes. */
  function Encode(c: Color, f: PixelFormat): (code: seq<u8>)
    ensures |code| == BytesPerPixel(f)
  {
    match f
    case Argb32 | Bgra32 => [c.b, c.g, c.r, c.a]
    case Rgba32 => [c.r, c.g, c.b, c.a]
    case Rgb24 => [c.r, c.g, c.b]
    case Bgr24 => [c.b, c.g, c.r]
    case Rgb565 => [ToRgb565(c) % 256, ToRgb565(c) / 256]
    case Indexed8 => [(c.r + c.g + c.b) / 3]
  }

  /** What `read_pixel_from_buffer` makes of them. */
  function Decode(code: seq<u8>, f: PixelFormat): Color
    requires |code| == BytesPerPixel(f)
  {
    match f
    case Argb32 | Bgra32 => Color(code[2], code[1], code[0], code[3])
    case Rgba32 => Color(code[0], code[1], code[2], code[3])
    case Rgb24 => Color(code[0], code[1], code[2], 255)
    case Bgr24 => Color(code[2], code[1], code[0], 255)
    case Rgb565 => var low: nat, high: nat := code[0], code[1]; FromRgb565(low + 256 * high)
    case Indexed8 => Color(code[0], code[0], code[0], 255)
  }

  /** The channels of the byte-per-channel formats, from the lowest address up; the one named as a word, from its lowest byte. */
  function Channels(f: PixelFormat): string {
    match f
    case Argb32 => "BGRA"
    case Bgra32 => "BGRA"
    case Rgba32 => "RGBA"
    case Rgb24 => "RGB"
    case Bgr24 => "BGR"
    case _ => ""
  }

  function Channel(c: Color, name: char): u8 {
    if name == 'R' then c.r else if name == 'G' then c.g else if name == 'B' then c.b else c.a
  }

  /** Each byte is the channel its format names for that place. */
  lemma ChannelOrder(c: Color, f: PixelFormat, i: nat)
    requires i < |Channels(f)|
    ensures |Channels(f)| == BytesPerPixel(f) && Encode(c, f)[i] == Channel(c, Channels(f)[i])
  {
  }

  /** The 32-bit word 0xAARRGGBB, as its bytes little-endian. */
  lemma {:induction false} Argb32Word(c: Color)
    ensures LittleEndian(Encode(c, Argb32)) == c.a * 0x100_0000 + c.r * 0x1_0000 + c.g * 0x100 + c.b
  {
    FourByteWord(c.b, c.g, c.r, c.a);
  }

  /** The 16-bit word of 5, 6 and 5 bits, as its bytes little-endian. */
  lemma {:induction false} Rgb565Word(c: Color, r: nat, g: nat, b: nat)
    requires r == c.r / 8 && g == c.g / 4 && b == c.b / 8
    ensures LittleEndian(Encode(c, Rgb565)) == Or(Or(b, g * Pow2(5)), r * Pow2(11))
  {
    TwoByteWord(ToRgb565(c));
    Fields565Or(r, g, b);
  }

  lemma {:induction false} Fields565Or(r: nat, g: nat, b: nat)
    requires r < 32 && g < 64 && b < 32
    ensures Or(Or(b, g * Pow2(5)), r * Pow2(11)) == r * 2048 + g * 32 + b
  {
    PowersOf565();
    ModUnique(g * 32, 32, g, 0);
    OrDisjoint(b, g * 32, 5);
    ModUnique(r * 2048, 2048, r, 0);
    OrDisjoint(b + g * 32, r * 2048, 11);
  }

  lemma {:induction false} PowersOf565()
    ensures Pow2(5) == 32 && Pow2(11) == 2048
  {
    PowAdd(5, 6);
  }

  lemma {:induction false} FourByteWord(x: u8, y: u8, z: u8, w: u8)
    ensures LittleEndian([x, y, z, w]) == w * 0x100_0000 + z * 0x1_0000 + y * 0x100 + x
  {
    assert [x, y, z, w][1..] == [y, z, w] && [y, z, w][1..] == [z, w] && [z, w][1..] == [w] && [w][1..] == [];
    assert LittleEndian([w]) == w;
    assert LittleEndian([z, w]) == z + 256 * w;
  }

  lemma {:induction false} TwoByteWord(v: nat)
    requires v < TWO_16
    ensures LittleEndian([v % 256, v / 256]) == v
  {
    var low: u8, high: u8 := v % 256, v / 256;
    assert [low, high][1..] == [high] && [high][1..] == [];
    assert LittleEndian([high]) == high;
  }

  /** What a format keeps of a colour. */
  function Kept(c: Color, f: PixelFormat): Color {
    match f
    case Argb32 | Bgra32 | Rgba32 => c
    case Rgb24 | Bgr24 => c.(a := 255)
    case Rgb565 => Color(c.r - c.r % 8, c.g - c.g % 4, c.b - c.b % 8, 255)
    case Indexed8 => var gray := (c.r + c.g + c.b) / 3; Color(gray, gray, gray, 255)
  }

  /** Reading back a written pixel gives the colour, less only what the format cannot hold. */
  lemma DecodeEncode(c: Color, f: PixelFormat)
    ensures Decode(Encode(c, f), f) == Kept(c, f)
  {
    if f == Rgb565 {
      Fields565(c.r / 8, c.g / 4, c.b / 8);
    }
  }

  lemma Fields565(r: nat, g: nat, b: nat)
    requires r < 32 && g < 64 && b < 32
    ensures var v := r * 2048 + g * 32 + b; v / 2048 == r && v / 32 % 64 == g && v % 32 == b
  {
  }

  /** What `clear` writes: it prepares data for the 32-bit formats only. */
  function ClearCode(c: Color, f: PixelFormat): (code: seq<u8>)
    ensures |code| == BytesPerPixel(f)
  {
    match f
    case Argb32 | Bgra32 | Rgba32 => Encode(c, f)
    case Rgb24 | Bgr24 => [0, 0, 0]
    case Rgb565 => [0, 0]
    case Indexed8 => [0]
  }

  /** Which colours encode as zeros in the formats `clear` does not prepare. */
  predicate Blank(c: Color, f: PixelFormat) {
    match f
    case Rgb565 => c.r < 8 && c.g < 4 && c.b < 8
    case Indexed8 => c.r + c.g + c.b < 3
    case _ => c.r == 0 && c.g == 0 && c.b == 0
  }

  lemma BlankWhen565(c: Color)
    ensures ToRgb565(c) % 256 == 0 == ToRgb565(c) / 256 <==> c.r < 8 && c.g < 4 && c.b < 8
  {
    Fields565(c.r / 8, c.g / 4, c.b / 8);
  }

  lemma BlankWhenZeros(c: Color, f: PixelFormat)
    requires BytesPerPixel(f) < 4
    ensures (forall i :: 0 <= i < BytesPerPixel(f) ==> Encode(c, f)[i] == 0) <==> Blank(c, f)
  {
    BlankWhen565(c);
    var code := Encode(c, f);
    assert (forall i :: 0 <= i < BytesPerPixel(f) ==> code[i] == 0) <==>
      code[0] == 0 && (BytesPerPixel(f) > 1 ==> code[1] == 0) && (BytesPerPixel(f) > 2 ==> code[2] == 0);
  }

  /** `clear` shows the colour asked for exactly in the 32-bit formats, and for colours that encode as zeros. */
  lemma ClearShowsColor(c: Color, f: PixelFormat)
    ensures ClearCode(c, f) == Encode(c, f) <==> BytesPerPixel(f) == 4 || Blank(c, f)
  {
    if BytesPerPixel(f) < 4 {
      BlankWhenZeros(c, f);
      assert forall i :: 0 <= i < BytesPerPixel(f) ==> ClearCode(c, f)[i] == 0;
    }
  }
}
