# Hex pixel dump

A Dafny model of the plain-text pixel format two scripts of an FPGA histogram-equalization
project use to move a grayscale image between the host and the hardware test bench.

- The exporter (`test.py`) flattens the image row-major and writes every pixel as
  `f"{p:02x}\n"`: two lower-case hexadecimal digits and a newline, one pixel per line.
- The importer (`verrify.py`) iterates over the lines of a text file. It keeps
  `line.strip()` of every line that is not blank and parses each with `int(…, 16)`. It then
  converts the values to `uint8` and reshapes them row-major to `(height, width)`, which
  the script fixes at 64 x 64.

Modules follow that structure:

- `Wrappers`: the `Result` type the importer's failures are returned in.
- `Hex`: digits, the two-digit encoding of a byte, and the value of a base-16 numeral.
- `Text`: the parts of Python's text handling the scripts depend on:
  - the `str.isspace` set and `strip()`;
  - universal-newline translation on read, and `os.linesep` translation on write;
  - how `for line in f` splits a text into lines.
- `Grid`: row-major `Flatten` and `Reshape`, with the index law
  `grid[r][c] == data[r * w + c]`.
- `Exporter`: the exporter.
- `Importer`: the importer. Each exception that the modelled steps (verrify.py:9-12) let
  escape is an `ImportError`:
  - `BadHexLiteral`: `int` rejects the literal;
  - `PixelOutOfRange`: a value does not fit `uint8`;
  - `ReshapeFailed`: the value count is not `height * width`. It carries the reshape error of `Grid`.
- `RoundTrip`: both scripts together. Importing an export with the image's own dimensions
  gives the image back, whichever line separator the platform writes.

The width and height are parameters of `Importer.Import`. `Importer.ImportFixed` is the
script as written, with 64 x 64.

## Model

| member | source | states |
|---|---|---|
| Hex.EncodeByte | test.py:9 | a pixel is written as exactly two lower-case hex digits whose base-16 value is the pixel; the first digit is `0` exactly when the pixel is below 16 |
| Hex.EncodeByteOfValue | test.py:9 | every two-digit lower-case numeral is the encoding of its value, so the encoding is onto the two-digit numerals |
| Hex.EncodeByteInjective | test.py:9 | distinct pixels are written as distinct numerals |
| Hex.EncodeByteExamples | test.py:9 | 0, 10 and 255 are written `00`, `0a` and `ff` |
| Hex.HexValue | verrify.py:9 | the value of a numeral of `k` digits is below `16^k`, so a two-digit line is at most 255 |
| Hex.HexValueIgnoresCase | verrify.py:9 | base-16 parsing gives the same value whatever the case of the letter digits |
| Text.Strip | verrify.py:9 | the result of `strip()` is empty exactly when the line is all whitespace, and otherwise it neither starts nor ends with whitespace |
| Text.StripFactor | verrify.py:9 | the result of `strip()` is the part of the line that lies between a whitespace prefix and a whitespace suffix |
| Text.StripOfFactor | verrify.py:9 | conversely, any part of a line that is bounded by whitespace and neither starts nor ends with it is what `strip()` returns |
| Text.StripPadded | verrify.py:9 | whitespace added on either side of a line does not change its stripped text |
| Text.StripTerminated | verrify.py:9 | stripping a numeral followed by its line terminator gives the numeral |
| Text.ReadNewlines | verrify.py:7 | a file read in text mode holds no carriage return, and text without one is read unchanged |
| Text.ReadPlain | verrify.py:7 | text without a carriage return is read unchanged, whatever follows it |
| Text.ReadCRLF | verrify.py:7 | a `\r\n` pair is read as a single newline |
| Text.ReadLoneCR | verrify.py:7 | a carriage return not followed by a newline is read as a newline of its own, so it ends a line |
| Text.WriteNewlines | test.py:7 | writing in text mode stores the text unchanged when the platform separator is LF or the text has no newline, and never shortens it |
| Text.WritePlain | test.py:7 | text without a newline is written unchanged, whatever follows it |
| Text.WriteNewline | test.py:7 | each newline is written as the platform's line separator, `\r\n` under CRLF, and the text around it is kept |
| Text.ReadAfterWrite | test.py:7-9 | what a text-mode write stores, a text-mode read gives back, with either line separator |
| Text.Lines | verrify.py:9 | file iteration splits the text into non-empty lines that concatenate to it, every line but the last ending in a newline and none holding an inner one |
| Text.LineSplitUnique | verrify.py:9 | that split into lines is the only one |
| Grid.FlattenLength | test.py:5 | flattening an `h x w` image gives `h * w` pixels |
| Grid.FlattenIndex | test.py:5 | flattening is row-major: pixel `(r, c)` lands at index `r * w + c` |
| Grid.Reshape | verrify.py:12 | reshape succeeds exactly when the count is `h * w`; the result is `h x w` with `grid[r][c] == data[r * w + c]`; otherwise the error carries the size and the shape |
| Grid.ReshapeFlatten | verrify.py:12 | reshaping the flattening of an `h x w` image to `h x w` gives the image back |
| Grid.FlattenReshape | verrify.py:12 | flattening a successful reshape gives back the data |
| Grid.ReshapeRowMajorExample | verrify.py:12 | `[0, 1, 2, 3]` reshaped to 2 x 2 is `[[0, 1], [2, 3]]` |
| Exporter.EncodeLine | test.py:9 | the text written for one pixel is a single three-character newline-terminated line whose stripped text is the pixel's numeral |
| Exporter.EncodeDump | test.py:8-9 | the dump holds three characters per pixel and no carriage return |
| Exporter.EncodeDumpLines | test.py:8-9 | read back line by line, the dump has exactly one line per pixel, in pixel order |
| Exporter.Export | test.py:5-9 | the exported text, read back line by line, is one line per pixel of the row-major flattening, in order, and it holds no carriage return |
| Exporter.ExportFile | test.py:7-9 | reading the written file in text mode gives the exported text back; with LF separators the file is the text itself |
| Exporter.ExportLines | test.py:5-9 | an `h x w` image exports to `h * w` lines, and its pixel `(r, c)` is on line `r * w + c` |
| Importer.ParseHex | verrify.py:9 | `int(s, 16)` succeeds exactly on non-empty runs of hex digits, then gives their base-16 value, and otherwise names the rejected literal |
| Importer.DecodeLine | verrify.py:9 | a blank line is itself a bad literal, because `int('', 16)` raises; the comprehension therefore filters blank lines before parsing |
| Importer.Kept | verrify.py:9 | the filter keeps at most one literal per line, every kept literal is non-empty, and a list of blank lines keeps none |
| Importer.KeptLine | verrify.py:9 | a blank line contributes no literal; any other line contributes its stripped text |
| Importer.DecodeOneLine | verrify.py:9 | a blank line decodes to no value; any other line to exactly one value or to its parse error |
| Importer.KeptAppend | verrify.py:9 | filtering keeps file order: the literals of `a + b` are those of `a`, then those of `b` |
| Importer.DecodeLines | verrify.py:9 | the comprehension yields at most one value per line, and none at all from a list of blank lines |
| Importer.ParseAll | verrify.py:9 | parsing succeeds exactly when every literal is a numeral, yielding their values in order; otherwise it reports the first bad literal |
| Importer.ParseAllAppend | verrify.py:9 | parsing distributes over concatenation, and the first error wins |
| Importer.DecodeLinesAppend | verrify.py:9 | decoding `a + b` gives the values of `a` followed by those of `b`; an error in `a` wins |
| Importer.InsertBlankLine | verrify.py:9 | inserting a blank line anywhere does not change the decoded values |
| Importer.DecodeLinePadded | verrify.py:9 | whitespace around a line, its terminator included, does not change what it decodes to |
| Importer.ParseHexIgnoresCase | verrify.py:9 | a literal parses, and to the same value, whatever the case of its letter digits |
| Importer.DecodeLineIgnoresCase | verrify.py:9 | the same for a whole line |
| Importer.StripLowerAscii | verrify.py:9 | lower-casing a line commutes with stripping it |
| Importer.DecodePaddedNumeral | verrify.py:9 | a numeral with whitespace on either side, its line terminator included, decodes to the numeral's value |
| Importer.DecodeLineTerminated | verrify.py:9 | `"ff\n"` decodes to 255 |
| Importer.DecodeLineSpaced | verrify.py:9 | `" ff "` decodes to 255 |
| Importer.DecodeLineUpperCase | verrify.py:9 | `"FF"` decodes to 255 |
| Importer.DecodeLineInvalid | verrify.py:9 | `"fg"` and `"f f"` are rejected as bad literals, not read as values |
| Importer.ToPixels | verrify.py:12 | conversion to `uint8` succeeds exactly when every value is below 256, keeping the values; otherwise it reports the first value that is not |
| Importer.DecodeDump | verrify.py:7-9 | a file of whitespace only yields no values |
| Importer.DecodePixels | verrify.py:9-12 | a file's pixels exist exactly when it parses and every value is below 256, and they are then its values; a parse error comes first, otherwise the first value above 255 is reported |
| Importer.Import | verrify.py:9-12 | the first failing step decides the error; reshape fails exactly when the pixel count is not `height * width`; on success the image is `height x width` and its row-major flattening is the file's pixels |
| Importer.ImportIndex | verrify.py:12 | after a successful import, pixel `(r, c)` is the value of non-blank line `r * width + c` |
| Importer.ImportFixed | verrify.py:5-12 | the script as written accepts only files of exactly 4096 values and builds a 64 x 64 image |
| RoundTrip.DecodeEncodeLine | test.py:9 | one exported line decodes to the pixel it was written for |
| RoundTrip.KeptEncodedLines | verrify.py:9 | no exported line is blank, and the literal kept from line `i` is the numeral of pixel `i` |
| RoundTrip.DecodeEncodedLines | verrify.py:9 | the exported lines decode to the original pixels |
| RoundTrip.ToPixelsOfBytes | verrify.py:12 | values that are already bytes convert unchanged |
| RoundTrip.DecodeEncodeDump | test.py:8-9 | decoding a dump gives back exactly its pixel sequence: the same length, values and order |
| RoundTrip.ImportExport | verrify.py:9-12 | importing the export of an `h x w` image with dimensions `h x w` gives the image back |
| RoundTrip.ImportExportFile | test.py:7-9 | the same holds for the file on disk, with either line separator |
| RoundTrip.ImportWrongShape | verrify.py:12 | importing with dimensions whose product differs from the pixel count `h * w` fails with a reshape error carrying that count |
| RoundTrip.ImportFixedExport | verrify.py:5 | the script as written reads back the export of any 64 x 64 image |
| RoundTrip.ImportFixedRejectsFullHd | verrify.py:5-12 | the script as written rejects the dump of a 3840 x 2160 image (the size the exporter reads) with a reshape error for 8294400 values |
| RoundTrip.WhiteRowExample | test.py:8-9 | a 1 x 4 white image exports to four `ff` lines, and importing them as 1 x 4 gives it back |

## Left out

- Image decoding and the grayscale conversion `Image.open(...).convert("L")` (test.py:4). These are library calls; the model starts from the grayscale pixel grid.
- `Image.fromarray`, `img.save` and the final `print` (verrify.py:13-15). These are library calls and output; the model ends at the reshaped array.
- File paths, and opening and closing files. A file is its text (`string`).
- The byte-to-character decoding of text mode. The text is taken as already decoded.
- Importer.ParseHex: models `int(s, 16)` only on plain ASCII hex digits. Python also accepts an optional `0x`/`0X` prefix, a sign, `_` between digits, and non-ASCII digits. The model reports all of these as `BadHexLiteral`, so for example a line `0x1f`, which the script reads as 31, is an error in the model. None of them can appear in the exporter's output.
- Importer.ToPixels: a value above 255 is the error NumPy 2 raises (`OverflowError`). NumPy 1.x instead stored the value modulo 256; that behaviour is not modelled.
- Grid.Reshape: models only a shape of two non-negative dimensions. numpy's inferred `-1` dimension does not occur in the script.
- The exporter's source image is 3840 x 2160, but the importer expects 64 x 64. Both scripts are modelled as written: `RoundTrip.ImportFixedRejectsFullHd` states the consequence, and `Importer.Import` keeps the dimensions as parameters.
