/** The two scripts together: what the exporter writes, the importer reads
    back unchanged, provided it is told the image's true dimensions. */
module RoundTrip {
  import opened Wrappers
  import opened Hex
  import opened Text
  import Grid
  import opened Exporter
  import opened Importer

  /** One exported line decodes to the pixel it was written for. */
  lemma DecodeEncodeLine(p: byte)
    ensures DecodeLine(EncodeLine(p)) == Ok(p)
  {
  }

  /** An exported line is not blank; the literal kept from it is its numeral. */
  lemma KeptEncodedLine(p: byte, rest: seq<string>)
    ensures Kept([EncodeLine(p)] + rest) == [EncodeByte(p)] + Kept(rest)
  {
    KeptAppend([EncodeLine(p)], rest);
    KeptLine(EncodeLine(p));
  }

  /** The numerals of `pixels`, in order. */
  function Numerals(pixels: seq<byte>): (ns: seq<string>)
    ensures |ns| == |pixels|
    ensures forall i :: 0 <= i < |pixels| ==> ns[i] == EncodeByte(pixels[i])
  {
    if pixels == [] then [] else [EncodeByte(pixels[0])] + Numerals(pixels[1..])
  }

  /** No exported line is blank, and the literal kept from line `i` is the
      numeral of pixel `i`. */
  lemma {:induction false} KeptEncodedLines(pixels: seq<byte>)
    ensures Kept(EncodedLines(pixels)) == Numerals(pixels)
  {
    if pixels != [] {
      var rest := EncodedLines(pixels[1..]);
      EncodedLinesCons(pixels);
      KeptEncodedLine(pixels[0], rest);
      KeptEncodedLines(pixels[1..]);
    } else {
      assert EncodedLines(pixels) == [];
    }
  }

  /** The exported lines, filtered, stripped and parsed, give back the pixels
      in their original order. */
  lemma DecodeEncodedLines(pixels: seq<byte>)
    ensures DecodeLines(EncodedLines(pixels)) == Ok(pixels)
  {
    KeptEncodedLines(pixels);
    var res := ParseAll(Numerals(pixels));
    assert res.Ok?;
    assert res.value == pixels;
  }

  /** Values that are already bytes convert unchanged. */
  lemma ToPixelsOfBytes(pixels: seq<byte>)
    ensures ToPixels(pixels) == Ok(pixels)
  {
  }

  /** Decoding the dump of a pixel sequence gives back exactly that sequence:
      the same length, values and order. */
  lemma DecodeEncodeDump(pixels: seq<byte>)
    ensures DecodeDump(EncodeDump(pixels)) == Ok(pixels)
    ensures DecodePixels(EncodeDump(pixels)) == Ok(pixels)
  {
    var text := EncodeDump(pixels);
    EncodeDumpLines(pixels);
    assert ReadNewlines(text) == text;
    DecodeEncodedLines(pixels);
    assert DecodeDump(text) == Ok(pixels);
    ToPixelsOfBytes(pixels);
  }

  /** Importing the export of an `h x w` image with the same dimensions
      reproduces the image. */
  lemma ImportExport(img: seq<seq<byte>>, h: nat, w: nat)
    requires Grid.IsRect(img, h, w)
    ensures Import(Export(img), w, h) == Ok(img)
  {
    DecodeEncodeDump(Grid.Flatten(img));
    Grid.ReshapeFlatten(img, h, w);
  }

  /** The same holds for the file on disk, whichever line separator the
      platform writes: reading in text mode undoes it. */
  lemma ImportExportFile(img: seq<seq<byte>>, h: nat, w: nat, nl: Newline)
    requires Grid.IsRect(img, h, w)
    ensures Import(ExportFile(img, nl), w, h) == Ok(img)
  {
    var text, file := Export(img), ExportFile(img, nl);
    assert ReadNewlines(file) == text;
    assert DecodeDump(file) == DecodeDump(text);
    assert DecodePixels(file) == DecodePixels(text);
    ImportExport(img, h, w);
  }

  /** Importing with dimensions whose product differs from the pixel count
      fails with a reshape error instead of truncating or padding. */
  lemma ImportWrongShape(img: seq<seq<byte>>, h: nat, w: nat, height: nat, width: nat)
    requires Grid.IsRect(img, h, w)
    requires h * w != height * width
    ensures |Grid.Flatten(img)| == h * w
    ensures Import(Export(img), width, height) == Err(ReshapeFailed(Grid.CannotReshape(|Grid.Flatten(img)|, height, width)))
  {
    var pixels := Grid.Flatten(img);
    DecodeEncodeDump(pixels);
    Grid.FlattenLength(img, h, w);
    assert DecodePixels(Export(img)) == Ok(pixels);
    assert |pixels| != height * width;
  }

  /** The importer as written (64 x 64) reads back the export of any 64 x 64
      image. */
  lemma ImportFixedExport(img: seq<seq<byte>>)
    requires Grid.IsRect(img, 64, 64)
    ensures ImportFixed(Export(img)) == Ok(img)
  {
    ImportExport(img, 64, 64);
  }

  /** The exporter as written reads a 3840 x 2160 image (2160 rows of 3840
      pixels); the importer as written rejects its dump. */
  lemma ImportFixedRejectsFullHd(img: seq<seq<byte>>)
    requires Grid.IsRect(img, 2160, 3840)
    ensures ImportFixed(Export(img)) == Err(ReshapeFailed(Grid.CannotReshape(8294400, 64, 64)))
  {
    ImportWrongShape(img, 2160, 3840, 64, 64);
  }

  /** A 1 x 4 all-white image exports to four `ff` lines, and importing them
      as 1 x 4 gives the image back. */
  lemma WhiteRowExample()
    ensures Export([[255, 255, 255, 255]]) == "ff\nff\nff\nff\n"
    ensures Import("ff\nff\nff\nff\n", 4, 1) == Ok([[255, 255, 255, 255]])
  {
    var img: seq<seq<byte>> := [[255, 255, 255, 255]];
    assert Grid.IsRect(img, 1, 4);
    ImportExport(img, 1, 4);
    WhiteRowExport();
  }

  /** The export of the white row is its dump. */
  lemma WhiteRowExport()
    ensures Export([[255, 255, 255, 255]]) == "ff\nff\nff\nff\n"
  {
    var img: seq<seq<byte>> := [[255, 255, 255, 255]];
    var row: seq<byte> := [255, 255, 255, 255];
    assert Grid.Flatten(img) == row + Grid.Flatten([]);
    assert Grid.Flatten(img) == row;
    WhiteRowDump();
  }

  /** Four white pixels are dumped as four `ff` lines. */
  lemma WhiteRowDump()
    ensures EncodeDump([255, 255, 255, 255]) == "ff\nff\nff\nff\n"
  {
    DumpOfFour(255);
    WhiteLine();
    FourWhiteLines();
  }

  /** A white pixel is written as `ff`. */
  lemma WhiteLine()
    ensures EncodeLine(255) == "ff\n"
  {
    EncodeByteExamples();
  }

  /** The concatenation of the four lines as one literal. Kept apart from
      `WhiteRowDump` so that the solver meets the literal on its own. */
  lemma FourWhiteLines()
    ensures "ff\n" + "ff\n" + "ff\n" + "ff\n" == "ff\nff\nff\nff\n"
  {
  }

  /** Four pixels are dumped as their four lines. Stated for any pixel, so
      that unfolding the dump does not meet the literals of `WhiteRowDump`. */
  lemma DumpOfFour(p: byte)
    ensures EncodeDump([p, p, p, p]) == EncodeLine(p) + EncodeLine(p) + EncodeLine(p) + EncodeLine(p)
  {
    var l := EncodeLine(p);
    var one, two, three, four: seq<byte> := [p], [p, p], [p, p, p], [p, p, p, p];
    assert EncodeDump([]) == [];
    assert four[1..] == three && three[1..] == two && two[1..] == one && one[1..] == [];
    assert EncodeDump(one) == l + EncodeDump([]);
    assert EncodeDump(two) == l + EncodeDump(one);
    assert EncodeDump(three) == l + EncodeDump(two);
    assert EncodeDump(four) == l + EncodeDump(three);
    assert l + (l + (l + (l + []))) == l + l + l + l;
  }
}
