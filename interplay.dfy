/** How the encoder's output and the decoder's input relate. The encoder
    streams ints through a QDataStream; the byte layout below, four bytes per
    int with the most significant first, is an assumption about QDataStream's
    default settings, not something the converter's own code states. Under
    it the two routines do not invert each other. */
module Interplay {
  import opened Pixels
  import opened Grid
  import ImageToBinary
  import BinaryToImage

  /** A byte of the written file. */
  type Byte = b: int | 0 <= b < 256

  /** The four bytes of a 32-bit two's-complement int, most significant first
      (assumed QDataStream encoding of `stream << v`). */
  function BigEndian32(v: int): (r: seq<Byte>)
    requires -0x8000_0000 <= v < 0x8000_0000
    ensures |r| == 4
  {
    var u := v % 0x1_0000_0000;
    var q1 := u / 0x100;
    var q2 := q1 / 0x100;
    [q2 / 0x100, q2 % 0x100, q1 % 0x100, u % 0x100]
  }

  /** Reading four bytes back as a 32-bit two's-complement int. */
  function FromBigEndian32(b: seq<Byte>): int
    requires |b| == 4
  {
    var b0: int, b1: int, b2: int, b3: int := b[0], b[1], b[2], b[3];
    var u := ((b0 * 0x100 + b1) * 0x100 + b2) * 0x100 + b3;
    if u < 0x8000_0000 then u else u - 0x1_0000_0000
  }

  /** The assumed encoding loses nothing. The converter never reads ints
      back; this only checks the assumed layout itself. */
  lemma BigEndian32RoundTrip(v: int)
    requires -0x8000_0000 <= v < 0x8000_0000
    ensures FromBigEndian32(BigEndian32(v)) == v
  {
    var u := v % 0x1_0000_0000;
    var q1 := u / 0x100;
    var q2 := q1 / 0x100;
    assert u == q1 * 0x100 + u % 0x100;
    assert q1 == q2 * 0x100 + q1 % 0x100;
    assert q2 == (q2 / 0x100) * 0x100 + q2 % 0x100;
  }

  /** A channel value, being below 256, is streamed as three zero bytes and itself. */
  lemma BigEndian32OfChannel(v: int)
    requires 0 <= v < 256
    ensures BigEndian32(v) == [0, 0, 0, v]
  {
  }

  /** The file bytes for a stream of ints. */
  function StreamBytes(values: seq<int>): (r: seq<Byte>)
    requires forall k :: 0 <= k < |values| ==> -0x8000_0000 <= values[k] < 0x8000_0000
    ensures |r| == 4 * |values|
  {
    if values == [] then [] else BigEndian32(values[0]) + StreamBytes(values[1..])
  }

  /** Channel values of an encoded image fit the 32-bit stream. */
  lemma EncodedInRange(img: ImageToBinary.SourceImage, ps: seq<(nat, nat)>)
    ensures forall k :: 0 <= k < |ImageToBinary.ChannelValues(img, ps)| ==>
              0 <= ImageToBinary.ChannelValues(img, ps)[k] < 256
  {
    if ps != [] {
      EncodedInRange(img, ps[..|ps| - 1]);
    }
  }

  /** The bytes the encoder leaves in its output file for a loaded image. */
  function EncodedFile(img: ImageToBinary.SourceImage): (r: seq<Byte>)
    ensures |r| == 4 * |ImageToBinary.Encoded(img)|
  {
    EncodedInRange(img, Scan(img.width, img.height));
    StreamBytes(ImageToBinary.Encoded(img))
  }

  /** Feeding the encoder's file for a 1326-pixel-wide image of height h to
      the decoder, with `readAll` returning the file's bytes unchanged, yields
      an image of height 4 * h, not h: the encoder writes four bytes per
      channel, the decoder reads one. (Reading in text mode drops every
      carriage-return byte, 13; the bytes come back unchanged when no channel
      value is 13.) */
  lemma DecodedHeightOfEncodedFile(img: ImageToBinary.SourceImage)
    requires img.width == 1326
    ensures BinaryToImage.Decode(EncodedFile(img)).height == 4 * img.height
  {
    ScanLength(img.width, img.height);
    var h := img.height;
    assert |ImageToBinary.Encoded(img)| == 3 * (1326 * h);
    assert |EncodedFile(img)| == (4 * h) * (1326 * 3);
    BinaryToImage.HeightOfRows(4 * h);
  }

  /** ... and the decoded image's first pixel is opaque black whatever colour
      the source image's first pixel had: its three bytes are the high bytes
      of the first streamed int. */
  lemma FirstPixelOfEncodedFile(img: ImageToBinary.SourceImage)
    requires img.width == 1326 && img.height > 0
    ensures BinaryToImage.Height(|EncodedFile(img)|) > 0
    ensures BinaryToImage.PixelAt(BinaryToImage.Decode(EncodedFile(img)), 0, 0) == QRgb(0, 0, 0)
  {
    DecodedHeightOfEncodedFile(img);
    var file := EncodedFile(img);
    var values := ImageToBinary.Encoded(img);
    EncodedInRange(img, Scan(img.width, img.height));
    ImageToBinary.EncodedLayout(img, 0, 0, 0);
    BigEndian32OfChannel(values[0]);
    assert file[..4] == BigEndian32(values[0]);
    assert file[0] == 0 && file[1] == 0 && file[2] == 0;
    var decoded := BinaryToImage.Decode(file);
    BinaryToImage.DecodedWordsAt(file, 1326 * decoded.height, 0);
    assert BinaryToImage.PixelAt(decoded, 0, 0) == BinaryToImage.PixelFrom(file, 0);
  }

  /** The decoder's output file never coincides with the encoder's, whatever
      the two folders are: the names end in different characters. */
  lemma OutputPathsDiffer(imageFolder: string, binaryFolder: string)
    ensures BinaryToImage.OutputImagePath(imageFolder) != ImageToBinary.BinaryOutputPath(binaryFolder)
  {
    var p, q := BinaryToImage.OutputImagePath(imageFolder), ImageToBinary.BinaryOutputPath(binaryFolder);
    assert p[|p| - 1] == 'g';
    assert q[|q| - 1] == 't';
  }

  /** Different folders give different output files, for either routine. */
  lemma OutputPathsInjective(a: string, b: string)
    ensures BinaryToImage.OutputImagePath(a) == BinaryToImage.OutputImagePath(b) ==> a == b
    ensures ImageToBinary.BinaryOutputPath(a) == ImageToBinary.BinaryOutputPath(b) ==> a == b
  {
    if BinaryToImage.OutputImagePath(a) == BinaryToImage.OutputImagePath(b) {
      assert a == BinaryToImage.OutputImagePath(a)[..|a|];
    }
    if ImageToBinary.BinaryOutputPath(a) == ImageToBinary.BinaryOutputPath(b) {
      assert a == ImageToBinary.BinaryOutputPath(a)[..|a|];
    }
  }
}
