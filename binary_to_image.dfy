/** `convertBinaryToImage`: read a headerless dump of one byte per channel,
    fix the width at 1326 pixels (so one row takes 1326 * 3 bytes), derive
    the height from the byte count, and fill a 32-bit RGB image pixel by
    pixel. The width is written as the literal 1326 throughout, as in the
    source. */
module BinaryToImage {
  import opened Pixels
  import opened Grid

  /** `byteArray.size() / (width * 3)`: the number of complete rows the
      bytes hold. A trailing partial row is dropped. */
  function Height(size: nat): (h: nat)
    ensures h * (1326 * 3) <= size < (h + 1) * (1326 * 3)
    ensures size < (1326 * 3) ==> h == 0
  {
    size / (1326 * 3)
  }

  /** A dump of exactly N complete rows decodes to height N. */
  lemma HeightOfRows(n: nat)
    ensures Height(n * (1326 * 3)) == n
  {
    var h := Height(n * (1326 * 3));
    assert h * (1326 * 3) <= n * (1326 * 3) < (h + 1) * (1326 * 3);
  }

  /** `index = y * width * 3 + x * 3`: where pixel (x, y)'s red byte is read. */
  function ByteIndex(x: nat, y: nat): nat
  {
    y * 1326 * 3 + x * 3
  }

  /** Every read of the nested loops stays inside the byte array. */
  lemma ReadsInBounds(size: nat, x: nat, y: nat)
    requires x < 1326 && y < Height(size)
    ensures ByteIndex(x, y) + 2 < size
    ensures ByteIndex(x, y) + 2 < Height(size) * (1326 * 3)
  {
    assert ByteIndex(x, y) + 2 < (y + 1) * (1326 * 3);
  }

  /** Row `y` of a dump of `Height(size)` rows lies inside it, and inside
      an image of that height. */
  lemma RowInBounds(size: nat, y: nat)
    requires y < Height(size)
    ensures 3 * (1326 * (y + 1)) <= size
    ensures 1326 * (y + 1) <= 1326 * Height(size)
  {
  }

  /** The pixel word built from the three bytes starting at `index`. */
  function PixelFrom(bytes: seq<CharValue>, index: nat): Rgb32
    requires index + 2 < |bytes|
  {
    QRgb(bytes[index], bytes[index + 1], bytes[index + 2])
  }

  /** A decoded image: its size and its pixel words, row by row
      (pixel (x, y) at position y * width + x). */
  datatype Image = Image(width: nat, height: nat, pixels: seq<Rgb32>)

  /** `QImage::pixel(x, y)`. */
  function PixelAt(img: Image, x: nat, y: nat): Rgb32
    requires |img.pixels| == img.width * img.height
    requires x < img.width && y < img.height
  {
    CellIndex(img.width, img.height, x, y);
    img.pixels[y * img.width + x]
  }

  /** The first n pixel words decoded from `bytes`, in the order the loops
      produce them. */
  function DecodedWords(bytes: seq<CharValue>, n: nat): (r: seq<Rgb32>)
    requires 3 * n <= |bytes|
    ensures |r| == n
  {
    if n == 0 then [] else DecodedWords(bytes, n - 1) + [PixelFrom(bytes, 3 * (n - 1))]
  }

  /** Pixel word k is built from bytes 3 * k, 3 * k + 1 and 3 * k + 2. */
  lemma {:induction false} DecodedWordsAt(bytes: seq<CharValue>, n: nat, k: nat)
    requires 3 * n <= |bytes| && k < n
    ensures DecodedWords(bytes, n)[k] == PixelFrom(bytes, 3 * k)
  {
    if k < n - 1 {
      DecodedWordsAt(bytes, n - 1, k);
    }
  }

  /** The first n words depend only on the first 3 * n bytes. */
  lemma {:induction false} DecodedWordsPrefix(a: seq<CharValue>, b: seq<CharValue>, n: nat)
    requires 3 * n <= |a| && 3 * n <= |b| && a[..3 * n] == b[..3 * n]
    ensures DecodedWords(a, n) == DecodedWords(b, n)
  {
    if n > 0 {
      assert a[..3 * (n - 1)] == a[..3 * n][..3 * (n - 1)];
      assert b[..3 * (n - 1)] == b[..3 * n][..3 * (n - 1)];
      DecodedWordsPrefix(a, b, n - 1);
      var i := 3 * (n - 1);
      assert a[i] == a[..3 * n][i] && a[i + 1] == a[..3 * n][i + 1] && a[i + 2] == a[..3 * n][i + 2];
      assert b[i] == b[..3 * n][i] && b[i + 1] == b[..3 * n][i + 1] && b[i + 2] == b[..3 * n][i + 2];
    }
  }

  /** The image the decoder builds from `bytes`: 1326 pixels wide, one row per
      complete 1326 * 3 bytes, pixel word i from bytes 3 * i .. 3 * i + 2. */
  function Decode(bytes: seq<CharValue>): (img: Image)
    ensures img.width == 1326
    ensures img.height * (1326 * 3) <= |bytes| < (img.height + 1) * (1326 * 3)
    ensures |bytes| < (1326 * 3) ==> img.height == 0
    ensures |img.pixels| == img.width * img.height
  {
    var h := Height(|bytes|);
    Image(1326, h, DecodedWords(bytes, 1326 * h))
  }

  /** Decoded pixel (x, y) has red, green and blue from bytes `index`,
      `index + 1` and `index + 2`, each masked to 0..255, and alpha 0xff. */
  lemma DecodedPixel(bytes: seq<CharValue>, x: nat, y: nat)
    requires x < 1326 && y < Height(|bytes|)
    ensures ByteIndex(x, y) + 2 < |bytes|
    ensures QRed(PixelAt(Decode(bytes), x, y)) == Mask8(bytes[ByteIndex(x, y)])
    ensures QGreen(PixelAt(Decode(bytes), x, y)) == Mask8(bytes[ByteIndex(x, y) + 1])
    ensures QBlue(PixelAt(Decode(bytes), x, y)) == Mask8(bytes[ByteIndex(x, y) + 2])
    ensures QAlpha(PixelAt(Decode(bytes), x, y)) == 0xff
  {
    ReadsInBounds(|bytes|, x, y);
    var i, k := ByteIndex(x, y), y * 1326 + x;
    var img := Decode(bytes);
    assert y * img.width + x == k;
    DecodedWordsAt(bytes, 1326 * img.height, k);
    assert i == 3 * k;
    assert PixelAt(img, x, y) == PixelFrom(bytes, i);
    QRgbChannels(bytes[i], bytes[i + 1], bytes[i + 2]);
  }

  /** Only the complete rows are read: cutting the bytes after the last
      complete row does not change the decoded image. */
  lemma TrailingBytesIgnored(bytes: seq<CharValue>)
    ensures Decode(bytes[..Height(|bytes|) * (1326 * 3)]) == Decode(bytes)
  {
    var h := Height(|bytes|);
    var cut := bytes[..h * (1326 * 3)];
    assert Height(|cut|) == h;
    assert cut[..3 * (1326 * h)] == bytes[..3 * (1326 * h)];
    DecodedWordsPrefix(cut, bytes, 1326 * h);
  }

  /** Two dumps with the same number of complete rows and the same bytes in
      those rows decode to the same image, whatever follows them. */
  lemma OnlyCompleteRowsMatter(a: seq<CharValue>, b: seq<CharValue>)
    requires Height(|a|) == Height(|b|)
    requires a[..Height(|a|) * (1326 * 3)] == b[..Height(|b|) * (1326 * 3)]
    ensures Decode(a) == Decode(b)
  {
    TrailingBytesIgnored(a);
    TrailingBytesIgnored(b);
  }

  /** The QImage of format RGB32 that the decoder fills with `setPixel`.
      Its pixel words start out unspecified; `setPixelCalls` records the
      coordinates of every `setPixel` call, in order. */
  class RgbImage {
    const width: nat
    const height: nat
    const data: array<Rgb32>
    /** The pixel words of `data`, row by row. */
    ghost var pixels: seq<Rgb32>
    ghost var setPixelCalls: seq<(nat, nat)>

    ghost predicate Valid()
      reads this, data
    {
      && |pixels| == width * height && data.Length == |pixels|
      && forall i :: 0 <= i < data.Length ==> data[i] == pixels[i]
    }

    /** `QImage image(width, height, QImage::Format_RGB32)`. */
    constructor (w: nat, h: nat)
      ensures Valid() && width == w && height == h && setPixelCalls == []
      ensures fresh(data)
    {
      width, height := w, h;
      var a := new Rgb32[w * h];
      data := a;
      pixels := a[..];
      setPixelCalls := [];
    }

    /** `image.setPixel(x, y, v)`: a pixel outside the image is ignored. */
    method SetPixel(x: nat, y: nat, v: Rgb32)
      requires Valid()
      modifies this, data
      ensures Valid()
      ensures setPixelCalls == old(setPixelCalls) + [(x, y)]
      ensures x < width && y < height ==>
                y * width + x < |pixels| && pixels == old(pixels)[y * width + x := v]
      ensures !(x < width && y < height) ==> pixels == old(pixels)
    {
      if x < width && y < height {
        CellIndex(width, height, x, y);
        data[y * width + x] := v;
        pixels := pixels[y * width + x := v];
      }
      setPixelCalls := setPixelCalls + [(x, y)];
    }

    /** The image as a value. */
    function Snapshot(): (img: Image)
      reads this, data
      requires Valid()
      ensures img == Image(width, height, pixels)
    {
      assert data[..] == pixels;
      Image(width, height, data[..])
    }
  }

  /** What `binaryFile.open` and `readAll` give: failure, or the bytes. */
  datatype ReadResult = OpenFailed | Opened(contents: seq<CharValue>)

  /** How one conversion ends. */
  datatype DecodeOutcome =
    | ReadOpenError                        // the dump would not open: nothing decoded
    | SaveError(path: string)              // the decoded image could not be saved there
    | Saved(path: string, image: Image)    // the image written to `path`

  /** `outputFolderPath + "/output_image.png"`. */
  function OutputImagePath(folder: string): (p: string)
    ensures |p| == |folder| + 17
    ensures p[..|folder|] == folder && p[|folder|..] == "/output_image.png"
  {
    folder + "/output_image.png"
  }

  /** The result `convertBinaryToImage` reaches, given whether the dump
      opened and whether writing a non-empty image would succeed. An image of
      height 0 is a null QImage, which `QImage::save` always refuses. */
  function BinaryToImageOutcome(input: ReadResult, outputFolderPath: string, saveSucceeds: bool): (r: DecodeOutcome)
    ensures r.ReadOpenError? <==> input.OpenFailed?
    ensures !r.ReadOpenError? ==> r.path == OutputImagePath(outputFolderPath)
    ensures r.Saved? <==> input.Opened? && saveSucceeds && Height(|input.contents|) > 0
  {
    match input
    case OpenFailed => ReadOpenError
    case Opened(bytes) =>
      if saveSucceeds && Height(|bytes|) > 0 then Saved(OutputImagePath(outputFolderPath), Decode(bytes))
      else SaveError(OutputImagePath(outputFolderPath))
  }

  /** Setting word k of `a`, whose first k words are decoded already, to the
      word decoded from bytes 3 * k .. 3 * k + 2 decodes one word more. */
  lemma DecodeStep(a: seq<Rgb32>, bytes: seq<CharValue>, k: nat)
    requires k < |a| && 3 * k + 3 <= |bytes| && a[..k] == DecodedWords(bytes, k)
    ensures a[k := PixelFrom(bytes, 3 * k)][..k + 1] == DecodedWords(bytes, k + 1)
  {
    assert a[k := PixelFrom(bytes, 3 * k)][..k + 1] == a[..k] + [PixelFrom(bytes, 3 * k)];
  }

  /** Setting word k leaves the words after it as they were. */
  lemma UpdateKeepsRest(a: seq<Rgb32>, k: nat, v: Rgb32)
    requires k < |a|
    ensures a[k := v][k + 1..] == a[k + 1..]
  {
  }

  /** The body of the decoder's inner loop: pixel (x, y) is set from the three
      bytes at `index = y * width * 3 + x * 3`, one word past the pixels
      already decoded. */
  method DecodePixel(image: RgbImage, byteArray: seq<CharValue>, x: nat, y: nat, ghost k: nat)
    requires image.Valid() && image.width == 1326 && x < 1326 && y < image.height
    requires k == 1326 * y + x && k < |image.pixels| && 3 * k + 3 <= |byteArray|
    requires image.pixels[..k] == DecodedWords(byteArray, k)
    modifies image, image.data
    ensures image.Valid() && |image.pixels| == old(|image.pixels|)
    ensures image.setPixelCalls == old(image.setPixelCalls) + [(x, y)]
    ensures image.pixels[..k + 1] == DecodedWords(byteArray, k + 1)
    ensures image.pixels == old(image.pixels)[k := PixelFrom(byteArray, 3 * k)]
    ensures image.pixels[k + 1..] == old(image.pixels)[k + 1..]
  {
    var width := 1326;
    var index := y * width * 3 + x * 3;
    var pixelValue := QRgb(byteArray[index], byteArray[index + 1], byteArray[index + 2]);
    assert index == 3 * k && pixelValue == PixelFrom(byteArray, 3 * k);
    DecodeStep(image.pixels, byteArray, k);
    assert y * image.width + x == k;
    UpdateKeepsRest(image.pixels, k, pixelValue);
    image.SetPixel(x, y, pixelValue);
  }

  /** One pass of the decoder's inner loop: row `y` of `image`, pixel by
      pixel from left to right. */
  method DecodeRow(image: RgbImage, byteArray: seq<CharValue>, y: nat)
    requires image.Valid() && image.width == 1326 && y < image.height
    requires 1326 * (y + 1) <= |image.pixels| && 3 * (1326 * (y + 1)) <= |byteArray|
    requires image.pixels[..1326 * y] == DecodedWords(byteArray, 1326 * y)
    modifies image, image.data
    ensures image.Valid() && |image.pixels| == old(|image.pixels|)
    ensures image.setPixelCalls == old(image.setPixelCalls) + RowScan(y, 1326)
    ensures image.pixels[..1326 * (y + 1)] == DecodedWords(byteArray, 1326 * (y + 1))
    ensures image.pixels[1326 * (y + 1)..] == old(image.pixels)[1326 * (y + 1)..]
  {
    var width := 1326;
    var x := 0;
    ghost var k, done := 1326 * y, image.setPixelCalls;
    while x < width
      invariant x <= width && k == 1326 * y + x
      invariant image.Valid() && |image.pixels| == old(|image.pixels|)
      invariant image.setPixelCalls == done + RowScan(y, x)
      invariant image.pixels[..k] == DecodedWords(byteArray, k)
      invariant image.pixels[k..] == old(image.pixels)[k..]
    {
      RowScanStep(done, y, x);
      DecodePixel(image, byteArray, x, y, k);
      x, k := x + 1, k + 1;
    }
    assert k == 1326 * (y + 1);
  }

  /** The decoder's outer loop over a fresh RGB32 image 1326 pixels wide, one
      row per complete 3978 bytes: every row is decoded, top to bottom. */
  method DecodeImage(byteArray: seq<CharValue>) returns (image: RgbImage)
    ensures fresh(image) && fresh(image.data) && image.Valid()
    ensures image.width == 1326 && image.height == Height(|byteArray|)
    ensures image.pixels == DecodedWords(byteArray, 1326 * Height(|byteArray|))
    ensures image.setPixelCalls == Scan(1326, Height(|byteArray|))
  {
    var width := 1326;
    var height := |byteArray| / (width * 3);
    image := new RgbImage(width, height);
    assert height == Height(|byteArray|) && |image.pixels| == 1326 * height;
    var y := 0;
    while y < height
      invariant fresh(image) && fresh(image.data)
      invariant y <= height && image.Valid() && |image.pixels| == 1326 * height
      invariant image.setPixelCalls == Scan(1326, y)
      invariant image.pixels[..1326 * y] == DecodedWords(byteArray, 1326 * y)
    {
      RowInBounds(|byteArray|, y);
      DecodeRow(image, byteArray, y);
      y := y + 1;
    }
    assert image.pixels == image.pixels[..1326 * height];
  }

  /** `convertBinaryToImage`: the order of the steps and where the image goes.
      Opening and saving are given as outcomes; `visited` is the list of
      `setPixel` calls made. */
  method ConvertBinaryToImage(input: ReadResult, outputFolderPath: string, saveSucceeds: bool)
    returns (outcome: DecodeOutcome, ghost visited: seq<(nat, nat)>)
    ensures outcome == BinaryToImageOutcome(input, outputFolderPath, saveSucceeds)
    ensures input.OpenFailed? ==> visited == []
    ensures input.Opened? ==> visited == Scan(1326, Height(|input.contents|))
  {
    if input.OpenFailed? {
      return ReadOpenError, [];
    }
    var byteArray := input.contents;
    var image := DecodeImage(byteArray);
    var outputFilePath := OutputImagePath(outputFolderPath);
    visited := image.setPixelCalls;
    if !saveSucceeds || image.height == 0 {
      // `image.save` fails, always so for the null image of height 0
      return SaveError(outputFilePath), visited;
    }
    var result := image.Snapshot();
    return Saved(outputFilePath, result), visited;
  }
}
