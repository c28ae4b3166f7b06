/** `convertImageToBinary`: load an image, open the output file, and stream
    the red, green and blue value of every pixel in row-major order. */
module ImageToBinary {
  import opened Pixels
  import opened Grid

  /** A successfully loaded QImage: its size and the colour at each pixel. */
  datatype SourceImage = SourceImage(width: nat, height: nat, colorAt: (nat, nat) -> Color)

  /** What `QImage image(imagePath)` gives: a null image, or a loaded one. */
  datatype LoadResult = LoadFailed | Loaded(image: SourceImage)

  /** How one conversion ends. Each failure comes before anything is streamed. */
  datatype EncodeOutcome =
    | LoadError                                  // image.isNull(): no file is opened
    | WriteOpenError(path: string)               // the output file would not open
    | Written(path: string, values: seq<int>)    // the ints streamed, in order

  /** The three channel values of the pixel at `p`, in streaming order. */
  function PixelValues(img: SourceImage, p: (nat, nat)): seq<int>
  {
    var c := img.colorAt(p.0, p.1);
    [c.red, c.green, c.blue]
  }

  /** The values streamed for the pixels `ps`, visited in that order. */
  function ChannelValues(img: SourceImage, ps: seq<(nat, nat)>): (r: seq<int>)
    ensures |r| == 3 * |ps|
  {
    if ps == [] then [] else ChannelValues(img, ps[..|ps| - 1]) + PixelValues(img, ps[|ps| - 1])
  }

  /** Visiting one more pixel streams its three values after the earlier ones. */
  lemma ChannelValuesSnoc(img: SourceImage, ps: seq<(nat, nat)>, p: (nat, nat))
    ensures ChannelValues(img, ps + [p]) == ChannelValues(img, ps) + PixelValues(img, p)
  {
    assert (ps + [p])[..|ps|] == ps;
  }

  /** One inner-loop step: streaming pixel (x, y)'s channels after the values
      of the pixels visited before it gives the values of one more visit. */
  lemma StreamStep(img: SourceImage, y: nat, x: nat, values: seq<int>)
    requires values == ChannelValues(img, Visited(img.width, y, x))
    ensures values + [img.colorAt(x, y).red] + [img.colorAt(x, y).green] + [img.colorAt(x, y).blue]
            == ChannelValues(img, Visited(img.width, y, x + 1))
  {
    VisitedStep(img.width, y, x);
    ChannelValuesSnoc(img, Visited(img.width, y, x), (x, y));
  }

  /** Value 3 * k + c of the stream is channel c of the k-th visited pixel. */
  lemma {:induction false} ChannelValuesAt(img: SourceImage, ps: seq<(nat, nat)>, k: nat, c: nat)
    requires k < |ps| && c < 3
    ensures 3 * k + c < |ChannelValues(img, ps)|
    ensures ChannelValues(img, ps)[3 * k + c] == Component(img.colorAt(ps[k].0, ps[k].1), c)
  {
    var n := |ps| - 1;
    assert ChannelValues(img, ps) == ChannelValues(img, ps[..n]) + PixelValues(img, ps[n]);
    if k < n {
      ChannelValuesAt(img, ps[..n], k, c);
    }
  }

  /** Everything the encoder streams for a loaded image. */
  function Encoded(img: SourceImage): seq<int>
  {
    ChannelValues(img, Scan(img.width, img.height))
  }

  /** The stream holds exactly width * height * 3 values, and pixel (x, y)'s
      red, green and blue sit at 3 * (y * width + x), + 1 and + 2. */
  lemma EncodedLayout(img: SourceImage, x: nat, y: nat, c: nat)
    requires x < img.width && y < img.height && c < 3
    ensures |Encoded(img)| == img.width * img.height * 3
    ensures 3 * (y * img.width + x) + c < |Encoded(img)|
    ensures Encoded(img)[3 * (y * img.width + x) + c] == Component(img.colorAt(x, y), c)
  {
    ScanLength(img.width, img.height);
    ScanAt(img.width, img.height, x, y);
    ChannelValuesAt(img, Scan(img.width, img.height), y * img.width + x, c);
  }

  /** The result `convertImageToBinary` reaches, given whether the image
      loaded and whether the output file opened. */
  function ImageToBinaryOutcome(loaded: LoadResult, outputFilePath: string, openSucceeds: bool): (r: EncodeOutcome)
    ensures r.LoadError? <==> loaded.LoadFailed?
    ensures r.WriteOpenError? <==> loaded.Loaded? && !openSucceeds
    ensures !r.LoadError? ==> r.path == outputFilePath
    ensures r.Written? ==> |r.values| == loaded.image.width * loaded.image.height * 3
  {
    match loaded
    case LoadFailed => LoadError
    case Loaded(img) =>
      ScanLength(img.width, img.height);
      if !openSucceeds then WriteOpenError(outputFilePath)
      else Written(outputFilePath, Encoded(img))
  }

  /** The QDataStream over the output file: the ints written to it so far. */
  class DataStream {
    var values: seq<int>

    constructor ()
      ensures values == []
    {
      values := [];
    }

    /** `stream << v`. */
    method WriteInt(v: int)
      modifies this
      ensures values == old(values) + [v]
    {
      values := values + [v];
    }
  }

  /** The encoder: the order of the checks and the nested loops that stream
      every pixel's channels. Loading and opening are given as outcomes. */
  method ConvertImageToBinary(loaded: LoadResult, outputFilePath: string, openSucceeds: bool)
    returns (outcome: EncodeOutcome)
    ensures outcome == ImageToBinaryOutcome(loaded, outputFilePath, openSucceeds)
  {
    if loaded.LoadFailed? {
      return LoadError;
    }
    var image := loaded.image;
    if !openSucceeds {
      return WriteOpenError(outputFilePath);
    }
    var stream := new DataStream();
    var y := 0;
    while y < image.height
      invariant y <= image.height
      invariant stream.values == ChannelValues(image, Scan(image.width, y))
    {
      var x := 0;
      VisitedRowStart(image.width, y);
      while x < image.width
        invariant x <= image.width
        invariant stream.values == ChannelValues(image, Visited(image.width, y, x))
      {
        var color := image.colorAt(x, y);
        StreamStep(image, y, x, stream.values);
        stream.WriteInt(color.red);
        stream.WriteInt(color.green);
        stream.WriteInt(color.blue);
        x := x + 1;
      }
      VisitedRowEnd(image.width, y);
      y := y + 1;
    }
    assert stream.values == Encoded(image);
    return Written(outputFilePath, stream.values);
  }

  /** The button handler's target file for this mode: `folder + "/binary_output.txt"`. */
  function BinaryOutputPath(folder: string): (p: string)
    ensures |p| == |folder| + 18
    ensures p[..|folder|] == folder && p[|folder|..] == "/binary_output.txt"
  {
    folder + "/binary_output.txt"
  }
}
