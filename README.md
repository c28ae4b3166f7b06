# Image converter: the two conversion routines, modelled in Dafny

The program is a small Qt desktop tool with two modes. In image-to-binary mode it
loads a picture and streams the red, green and blue value of every pixel, row by
row, through a `QDataStream` into `<folder>/binary_output.txt`. In binary-to-image
mode it reads a file as a headerless run of bytes, one byte per channel. It fixes
the width at 1326 pixels and derives the height from the byte count. It rebuilds
an RGB32 image with `qRgb` and `setPixel` and saves it as
`<folder>/output_image.png`.

This project models those two routines, `convertImageToBinary` and
`convertBinaryToImage`, and the two output-path concatenations. It proves what
their index arithmetic guarantees. The modules are:

- `Pixels` (pixels.dfy): colour channels, the value of one `char` of a
  `QByteArray`, the 32-bit pixel word, `& 0xff` masking and `qRgb` packing with
  its channel extractors.
- `Grid` (grid.dfy): the row-major visiting order of the nested `y`/`x` loops
  that both routines share (`Scan`), with its length, its positions and the
  fact that it visits every cell of the grid exactly once.
- `ImageToBinary` (image_to_binary.dfy): the image-to-binary routine.
  - `DataStream` is a class whose `WriteInt` appends one int.
  - `ConvertImageToBinary` is the imperative routine with the two nested loops.
  - `Encoded` is the pure specification of the stream contents.
  - `ImageToBinaryOutcome` gives the order in which the routine fails.
- `BinaryToImage` (binary_to_image.dfy): the binary-to-image routine.
  - `RgbImage` is a class over an `array` of pixel words, standing for the
    `QImage` that `setPixel` fills in place.
  - `Decode` is the pure specification of the image built from the bytes.
  - `ConvertBinaryToImage` is the routine itself. Its nested loops are split
    into three methods: `DecodeImage` runs the outer `y` loop, `DecodeRow` the
    inner `x` loop, and `DecodePixel` is one pass of the inner body (index,
    `qRgb`, `setPixel`).
  - `DecodePixel` is proved to change only its own word, extending the
    decoded prefix of the image by one word, and to add (x, y) to the
    `setPixel` log. `DecodeRow` extends the prefix by one row, leaves the
    rows below it as they were and adds `RowScan(y, 1326)` to the log. `DecodeImage`
    and `ConvertBinaryToImage` leave the image equal to `Decode`'s pixels and
    the log equal to `Scan(1326, height)`. No read leaves the byte array.
- `Interplay` (interplay.dfy): what happens when the encoder's file is given to
  the decoder.
  - The four-byte big-endian layout of a streamed `int` is an assumption about
    `QDataStream`'s defaults. The converter's own code does not state it.
  - Under that assumption the routines are not inverses. When `readAll`
    returns the file's bytes unchanged, which holds when no channel value is
    13 (see the text-mode line under "Left out"), a 1326-pixel-wide image of
    height h comes back with height 4 * h. Its first pixel comes back opaque
    black whatever colour it had; that holds either way, since the file's
    first three bytes are always 0.
  - No round-trip property is claimed for the converter. The only round trip
    proved is that of the assumed int encoding itself.

Loading an image, opening files and saving the PNG are not modelled as
computations. Their success or failure is a parameter of each routine: a
`LoadResult` or `ReadResult` value, and the `openSucceeds` and `saveSucceeds`
flags.

The comment at main.cpp:54 says the width is 1000. The code sets it to 1326,
and the model follows the code.

## Model

| member | source | states |
|---|---|---|
| Pixels.Mask8 | main.cpp:61 | `& 0xff` on a char value keeps 0..255 unchanged, lifts -128..-1 by 256, and always agrees with the value modulo 256 |
| Pixels.QRgb | main.cpp:61 | `qRgb(r, g, b)`: the word 0xff000000 + r * 0x10000 + g * 0x100 + b over the masked arguments; what it means is stated by `QRgbChannels` and `QRgbInjective` |
| Pixels.QRgbChannels | main.cpp:61 | the word `qRgb(r, g, b)` has red, green and blue equal to the masked arguments and alpha 0xff |
| Pixels.QRgbInjective | main.cpp:61 | two `qRgb` words are equal exactly when their three masked channels are equal |
| Grid.RowScanAt | main.cpp:37 | after n passes of the inner loop in row y there were n visits, and visit k was (k, y) |
| Grid.RowScan | main.cpp:59 | the visits of the first n passes of the inner `x` loop in row y, left to right; its length and positions are stated by `RowScanAt` |
| Grid.Scan | main.cpp:58-59 | the visits of the nested `y`/`x` loops over a w-by-h grid, rows top to bottom; stated by `ScanSize`, `ScanInGrid`, `ScanAt` and `ScanVisitsEachOnce` |
| Grid.Visited | main.cpp:58-59 | the visits made before pass x of row y: all earlier rows, then (0, y) .. (x - 1, y); it is the loop invariant of both routines |
| Grid.ScanSize | main.cpp:58-59 | the nested loops over a w-by-h grid make w * h visits |
| Grid.ScanInGrid | main.cpp:58-59 | every visit of the nested loops is inside [0, w) x [0, h) |
| Grid.ScanLength | main.cpp:36-37 | w * h visits, all inside the grid |
| Grid.ScanAtOffset | main.cpp:58-59 | pixel (x, y) is visited right after the rows above it and the x pixels to its left |
| Grid.ScanAt | main.cpp:58-59 | pixel (x, y) is visited at step y * w + x |
| Grid.ScanDistinct | main.cpp:58-64 | no pixel is visited twice |
| Grid.ScanVisitsEachOnce | main.cpp:58-64 | the set of visited pixels is exactly [0, w) x [0, h), each visited once, w * h visits in all |
| ImageToBinary.ChannelValuesAt | main.cpp:39 | value 3 * k + c of the stream is channel c (red, green, blue) of the k-th visited pixel |
| ImageToBinary.PixelValues | main.cpp:38-39 | the three values `stream << color.red() << color.green() << color.blue()` writes for one pixel |
| ImageToBinary.ChannelValues | main.cpp:39 | the values streamed for a list of visits hold three per visit; where each sits is stated by `ChannelValuesAt` |
| ImageToBinary.Encoded | main.cpp:36-41 | the whole stream: the channel values of every pixel in `Scan` order; its layout is stated by `EncodedLayout` |
| ImageToBinary.StreamStep | main.cpp:38-39 | streaming pixel (x, y)'s red, green and blue after the values so far gives the values of one more visit |
| ImageToBinary.EncodedLayout | main.cpp:36-40 | the stream holds width * height * 3 values, and pixel (x, y)'s red, green and blue sit at 3 * (y * width + x), +1 and +2 |
| ImageToBinary.ImageToBinaryOutcome | main.cpp:23-33 | a load failure is reported before anything is opened; an open failure is reported before anything is streamed; values are written only when both succeed, and then there are width * height * 3 of them |
| ImageToBinary.DataStream.WriteInt | main.cpp:39 | `stream << v` appends v to the values written so far |
| ImageToBinary.DataStream.constructor | main.cpp:35 | a new stream over the opened file has written nothing |
| ImageToBinary.ConvertImageToBinary | main.cpp:22-44 | the nested loops stream exactly `Encoded(image)`, so the routine's outcome is `ImageToBinaryOutcome`, the error cases included |
| ImageToBinary.BinaryOutputPath | main.cpp:113 | the encoder's target is the folder followed by "/binary_output.txt" |
| BinaryToImage.Height | main.cpp:55 | the height is the number of complete 3978-byte rows: h * 3978 <= size < (h + 1) * 3978, and 0 for fewer than 3978 bytes |
| BinaryToImage.HeightOfRows | main.cpp:55 | a file of exactly n complete rows gives height n |
| BinaryToImage.ReadsInBounds | main.cpp:55-61 | for every x < 1326 and y < height, index + 2 lies inside the byte array and inside the complete rows |
| BinaryToImage.RowInBounds | main.cpp:55-59 | all bytes of row y lie inside the byte array when y < height |
| BinaryToImage.ByteIndex | main.cpp:60 | `index = y * width * 3 + x * 3` with width 1326; that it is in bounds is stated by `ReadsInBounds` |
| BinaryToImage.PixelFrom | main.cpp:61 | the word `qRgb(byteArray[index], byteArray[index + 1], byteArray[index + 2])`, defined only where index + 2 is inside the array |
| BinaryToImage.DecodedWords | main.cpp:58-61 | the first n words the loops decode hold exactly n words; their values are stated by `DecodedWordsAt` and `DecodedWordsPrefix` |
| BinaryToImage.DecodedWordsAt | main.cpp:60-61 | decoded word k is `qRgb` of bytes 3 * k, 3 * k + 1 and 3 * k + 2 |
| BinaryToImage.DecodedWordsPrefix | main.cpp:60-61 | the first n decoded words depend only on the first 3 * n bytes |
| BinaryToImage.Decode | main.cpp:53-64 | the decoded image is 1326 wide and height * 3978 <= size < (height + 1) * 3978, so it has height 0 below 3978 bytes; it holds width * height pixel words |
| BinaryToImage.PixelAt | main.cpp:62 | the word at (x, y) of an image stored row by row, position y * width + x, which `CellIndex` shows is inside the pixels; used by `DecodedPixel` |
| BinaryToImage.DecodedPixel | main.cpp:60-61 | decoded pixel (x, y) has red, green and blue equal to bytes index, index + 1 and index + 2 masked to 0..255, and alpha 0xff, where index = y * 1326 * 3 + x * 3 is in bounds |
| BinaryToImage.TrailingBytesIgnored | main.cpp:55-61 | dropping the bytes after the last complete row leaves the decoded image unchanged |
| BinaryToImage.OnlyCompleteRowsMatter | main.cpp:55-61 | two files with the same complete rows decode to the same image, whatever bytes follow |
| BinaryToImage.RgbImage.constructor | main.cpp:57 | a new RGB32 image of the given size, with `setPixel` not yet called; pixel contents are left unspecified |
| BinaryToImage.RgbImage.SetPixel | main.cpp:62 | `setPixel` changes exactly word y * width + x when (x, y) is inside the image, and nothing otherwise; every call is logged |
| BinaryToImage.RgbImage.Snapshot | main.cpp:57-64 | the image as a value holds exactly the pixel words of the array |
| BinaryToImage.DecodeStep | main.cpp:60-62 | setting word k to the word decoded from its three bytes extends a decoded prefix of length k to one of length k + 1 |
| BinaryToImage.DecodePixel | main.cpp:60-62 | one inner-loop pass reads three in-range bytes and sets pixel (x, y) to their `qRgb`: only word k = y * 1326 + x changes, the decoded prefix grows by exactly that word, the words after it keep their values, and (x, y) is logged |
| BinaryToImage.DecodeRow | main.cpp:59-63 | one run of the inner loop sets row y left to right, so the array's first 1326 * (y + 1) words are decoded, the rows below y keep their values, and the log grows by (0, y) .. (1325, y) |
| BinaryToImage.DecodeImage | main.cpp:54-64 | after the outer loop the fresh image is 1326 by height, holds exactly `Decode`'s pixels, and was set in `Scan` order |
| BinaryToImage.OutputImagePath | main.cpp:66 | the decoder's target is the folder followed by "/output_image.png" |
| BinaryToImage.BinaryToImageOutcome | main.cpp:46-73 | an open failure decodes nothing; otherwise the image `Decode(bytes)` is saved to `OutputImagePath`, or a save error is reported for that path, always so when the bytes hold no complete row and the image is null |
| BinaryToImage.ConvertBinaryToImage | main.cpp:46-73 | the routine's outcome is `BinaryToImageOutcome`, so the saved image is `Decode(bytes)`; `setPixel` was called in exactly `Scan(1326, height)` order, and not at all when the file did not open |
| Interplay.BigEndian32 | main.cpp:39 | the assumed `QDataStream` encoding of one int is four bytes |
| Interplay.BigEndian32RoundTrip | main.cpp:39 | the assumed four-byte encoding of a 32-bit int loses nothing |
| Interplay.BigEndian32OfChannel | main.cpp:39 | a channel value 0..255 is streamed as three zero bytes followed by itself |
| Interplay.StreamBytes | main.cpp:35-41 | a stream of n ints occupies 4 * n bytes of the file |
| Interplay.EncodedInRange | main.cpp:38-39 | every value the encoder streams is a channel value 0..255 |
| Interplay.EncodedFile | main.cpp:35-41 | the encoder's file holds four bytes per streamed value |
| Interplay.DecodedHeightOfEncodedFile | main.cpp:55 | when `readAll` returns the encoder's file unchanged, the decoder reads it, for a 1326-wide image of height h, as an image of height 4 * h |
| Interplay.FirstPixelOfEncodedFile | main.cpp:61 | the decoder reads the first pixel of the encoder's file as opaque black, whatever that pixel's colour was |
| Interplay.OutputPathsDiffer | main.cpp:66 | the decoder's output file never coincides with the encoder's, whatever the folders |
| Interplay.OutputPathsInjective | main.cpp:113 | different folders give different output files, in either mode |

## Left out

- `main` and its lambdas (main.cpp:75-151): widget construction, file dialogs, layout and the event loop are user interface.
- The `mode` flag (main.cpp:20, 123-129): it only selects which routine the button calls.
- `QMessageBox` calls: the model returns an outcome value in their place.
- The file operations and image codecs are represented only by their outcome, a parameter of each routine. These are `QImage(imagePath)` loading, `QFile::open`, `readAll` and `QImage::save` PNG encoding.
- `QImage::pixelColor`: the loaded image is a width, a height and a colour for each pixel. Format conversion inside Qt is not modelled.
- The byte layout of `stream << int`: the four-byte big-endian form in `Interplay` is an assumption about `QDataStream`'s defaults, used only to relate the two routines.
- `QIODevice::Text` on the encoder's write open (main.cpp:30): the translation of "\n" to "\r\n" happens on Windows only, and the model of the written file in `Interplay` ignores it.
- `QIODevice::Text` on the decoder's read open (main.cpp:48): on every platform, reading in text mode drops every carriage-return byte (13). `contents` in `Opened(contents)` is the byte array after that removal, which is what `readAll` (main.cpp:53) returns. `Interplay` assumes the bytes come back unchanged, which holds when no streamed value is 13.
- The signedness of `char`: `CharValue` admits -128..255, so both platform choices are covered, and `qRgb`'s masking makes them agree.
- BinaryToImage.RgbImage.SetPixel: stores the word as given, without forcing the top byte to 0xff as an RGB32 `QImage` does. Every word the decoder stores comes from `qRgb` and already has alpha 0xff.
- BinaryToImage.RgbImage.constructor: does not state the initial pixel contents, which a fresh `QImage` leaves undefined. The decoder overwrites every pixel before it saves.
- `QImage::save` PNG encoding: its success on a non-empty image is the `saveSucceeds` parameter. An image of height 0 (fewer than 3978 bytes) is a null `QImage`, which `save` always refuses, so the model reports the save error for it whatever `saveSucceeds` says.
- Write failures while streaming (main.cpp:39-43): `QDataStream` only records them in its status, and the routine still reports success. `Written(path, Encoded(image))` assumes every value reaches the file.
- 32-bit `int` overflow in the index arithmetic: integers are unbounded here. Every index the decoder computes is below the byte count, so it fits wherever the byte count does.
