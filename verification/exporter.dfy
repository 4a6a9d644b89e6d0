/** The exporter (test.py): a grayscale image, flattened row-major, written
    one `{p:02x}` line per pixel. */
module Exporter {
  import opened Hex
  import opened Text
  import Grid

  /** The text written for one pixel: `f"{p:02x}\n"`. Stripped, it is the
      two-digit numeral; it is a single newline-terminated line. */
  function EncodeLine(p: byte): (l: string)
    ensures |l| == 3 && IsLine(l) && EndsWithNewline(l)
    ensures Strip(l) == EncodeByte(p)
    ensures '\r' !in l
  {
    var e := EncodeByte(p);
    StripTerminated(e, "\n");
    e + "\n"
  }

  /** The lines written for `pixels`, in order. */
  function EncodedLines(pixels: seq<byte>): seq<string> {
    seq(|pixels|, i requires 0 <= i < |pixels| => EncodeLine(pixels[i]))
  }

  /** The first line is the first pixel's, the rest are the rest's. */
  lemma EncodedLinesCons(pixels: seq<byte>)
    requires pixels != []
    ensures EncodedLines(pixels) == [EncodeLine(pixels[0])] + EncodedLines(pixels[1..])
  {
    var ls, rest := EncodedLines(pixels), EncodedLines(pixels[1..]);
    var e := [EncodeLine(pixels[0])] + rest;
    assert |ls| == |e|;
    forall i | 0 <= i < |ls|
      ensures ls[i] == e[i]
    {
      if i > 0 {
        assert e[i] == rest[i - 1] && pixels[i] == pixels[1..][i - 1];
      }
    }
  }

  /** The loop `for p in pixels: f.write(f"{p:02x}\n")`: three characters per
      pixel and no carriage return. */
  function EncodeDump(pixels: seq<byte>): (text: string)
    ensures |text| == 3 * |pixels|
    ensures '\r' !in text
  {
    if pixels == [] then [] else EncodeLine(pixels[0]) + EncodeDump(pixels[1..])
  }

  /** The dump is the concatenation of the pixels' lines. */
  lemma {:induction false} EncodeDumpConcat(pixels: seq<byte>)
    ensures EncodeDump(pixels) == Concat(EncodedLines(pixels))
  {
    if pixels != [] {
      EncodeDumpConcat(pixels[1..]);
      EncodedLinesCons(pixels);
    }
  }

  /** Reading the dump back line by line yields exactly one line per pixel,
      line `i` being the encoding of `pixels[i]`. */
  lemma EncodeDumpLines(pixels: seq<byte>)
    ensures Lines(EncodeDump(pixels)) == EncodedLines(pixels)
    ensures |Lines(EncodeDump(pixels))| == |pixels|
  {
    EncodeDumpConcat(pixels);
    LineSplitUnique(EncodedLines(pixels), EncodeDump(pixels));
  }

  /** The exported text of an image: read back line by line, it is one line
      per pixel of the row-major flattening, in order. */
  function Export(img: seq<seq<byte>>): (text: string)
    ensures Lines(text) == EncodedLines(Grid.Flatten(img))
    ensures '\r' !in text
  {
    EncodeDumpLines(Grid.Flatten(img));
    EncodeDump(Grid.Flatten(img))
  }

  /** What lands on disk when the text is written on a platform whose line
      separator is `nl`; reading the file in text mode gives the text back. */
  function ExportFile(img: seq<seq<byte>>, nl: Newline): (file: string)
    ensures ReadNewlines(file) == Export(img)
    ensures nl == LF ==> file == Export(img)
  {
    ReadAfterWrite(Export(img), nl);
    WriteNewlines(Export(img), nl)
  }

  /** An `h x w` image exports to `h * w` lines, one per pixel in row-major
      order: the pixel at row `r`, column `c` is written on line `r * w + c`. */
  lemma ExportLines(img: seq<seq<byte>>, h: nat, w: nat)
    requires Grid.IsRect(img, h, w)
    ensures |Lines(Export(img))| == h * w
    ensures Lines(Export(img)) == EncodedLines(Grid.Flatten(img))
    ensures forall r: nat, c: nat :: r < h && c < w ==> Grid.CellAt(img, Grid.Flatten(img), w, r, c)
  {
    Grid.FlattenIndex(img, h, w);
    EncodeDumpLines(Grid.Flatten(img));
  }
}
