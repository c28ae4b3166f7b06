/** Pixel values as the converter's two routines see them: 8-bit colour
    channels, the value of one `char` of a byte array, and the packed 32-bit
    word 0xAARRGGBB that Qt's `qRgb` builds from three channel values. */
module Pixels {

  /** One colour channel of a QColor: `red()`, `green()` and `blue()` lie in 0..255. */
  type Channel = c: int | 0 <= c < 256

  /** The colour of one image pixel, as `QImage::pixelColor` reports it
      (its alpha is never used by the converter). */
  datatype Color = Color(red: Channel, green: Channel, blue: Channel)

  /** Channel `k` of a colour, in streaming order: 0 red, 1 green, 2 blue. */
  function Component(c: Color, k: nat): Channel
    requires k < 3
  {
    if k == 0 then c.red else if k == 1 then c.green else c.blue
  }

  /** The value of one `char` of a QByteArray promoted to `int`: -128..127
      where the platform's `char` is signed, 0..255 where it is unsigned. */
  type CharValue = c: int | -128 <= c < 256

  /** A packed pixel word 0xAARRGGBB (Qt's `QRgb`, an unsigned 32-bit int). */
  type Rgb32 = v: int | 0 <= v < 0x1_0000_0000

  /** `c & 0xff` on a two's-complement integer: the low eight bits. Whichever
      signedness `char` has, the byte it came from is recovered. */
  function Mask8(c: int): (m: Channel)
    ensures 0 <= c < 256 ==> m == c
    ensures -128 <= c < 0 ==> m == c + 256
    ensures (c - m) % 256 == 0
  {
    c % 256
  }

  /** `qRgb(r, g, b)`: opaque alpha 0xff in the top byte, then each argument
      masked to eight bits, red highest. */
  function QRgb(r: int, g: int, b: int): Rgb32
  {
    0xff00_0000 + Mask8(r) * 0x1_0000 + Mask8(g) * 0x100 + Mask8(b)
  }

  /** `qRed`, `qGreen`, `qBlue`, `qAlpha`: the four bytes of a pixel word. */
  function QRed(v: Rgb32): Channel { (v / 0x1_0000) % 0x100 }
  function QGreen(v: Rgb32): Channel { (v / 0x100) % 0x100 }
  function QBlue(v: Rgb32): Channel { v % 0x100 }
  function QAlpha(v: Rgb32): Channel { v / 0x100_0000 }

  /** `qRgb` puts each masked channel into its own byte and makes the pixel opaque. */
  lemma QRgbChannels(r: int, g: int, b: int)
    ensures QRed(QRgb(r, g, b)) == Mask8(r)
    ensures QGreen(QRgb(r, g, b)) == Mask8(g)
    ensures QBlue(QRgb(r, g, b)) == Mask8(b)
    ensures QAlpha(QRgb(r, g, b)) == 0xff
  {
    var R: int, G: int, B: int := Mask8(r), Mask8(g), Mask8(b);
    var v := QRgb(r, g, b);
    assert v == ((0xff * 0x100 + R) * 0x100 + G) * 0x100 + B;
    assert v / 0x100 == (0xff * 0x100 + R) * 0x100 + G;
    assert v / 0x1_0000 == 0xff * 0x100 + R;
    assert v / 0x100_0000 == 0xff;
  }

  /** Two `qRgb` words are equal exactly when their masked channels are. */
  lemma QRgbInjective(r: int, g: int, b: int, r': int, g': int, b': int)
    ensures QRgb(r, g, b) == QRgb(r', g', b') <==>
            Mask8(r) == Mask8(r') && Mask8(g) == Mask8(g') && Mask8(b) == Mask8(b')
  {
    QRgbChannels(r, g, b);
    QRgbChannels(r', g', b');
  }
}
