/** The importer (verrify.py): every non-blank line of the dump is parsed as a
    base-16 integer, the values are converted to 8-bit samples and reshaped
    row-major into a `height x width` image. */
module Importer {
  import opened Wrappers
  import opened Hex
  import opened Text
  import Grid

  /** The resolution the script expects (64 x 64). */
  const Width: nat := 64
  const Height: nat := 64

  /** The errors that abort an import, after the exceptions the script lets
      propagate. */
  datatype ImportError =
    | BadHexLiteral(literal: string)                      // `int(s, 16)`: invalid literal
    | PixelOutOfRange(value: nat)                         // `dtype=np.uint8`: value out of bounds
    | ReshapeFailed(reason: Grid.ShapeError)              // `reshape`: size does not match the shape

  /** `int(s, 16)` on an already stripped literal, restricted to plain
      hexadecimal digits. */
  function ParseHex(s: string): (res: Result<nat, ImportError>)
    ensures res.Ok? <==> IsHexNumeral(s)
    ensures res.Ok? ==> res.value == HexValue(s)
    ensures res.Err? ==> res.error == BadHexLiteral(s)
  {
    if IsHexNumeral(s) then Ok(HexValue(s)) else Err(BadHexLiteral(s))
  }

  /** `int(line.strip(), 16)`. A blank line is itself an error, `int('', 16)`
      raising; that is why the comprehension filters blank lines out first. */
  function DecodeLine(line: string): (res: Result<nat, ImportError>)
    ensures AllSpace(line) ==> res == Err(BadHexLiteral([]))
  {
    ParseHex(Strip(line))
  }

  /** The filter and strip of the comprehension: `line.strip()` of every line
      for which `line.strip()` is non-empty, in file order. By the contract of
      `Strip`, a line is skipped exactly when it is all whitespace. */
  function Kept(ls: seq<string>): (kept: seq<string>)
    ensures |kept| <= |ls|
    ensures forall k :: 0 <= k < |kept| ==> kept[k] != []
    ensures (forall k :: 0 <= k < |ls| ==> AllSpace(ls[k])) ==> kept == []
  {
    if ls == [] then []
    else if AllSpace(ls[0]) then Kept(ls[1..])
    else [Strip(ls[0])] + Kept(ls[1..])
  }

  /** The parse of the comprehension: succeeds exactly when every literal is a
      numeral, then yields their values in order; otherwise it reports the
      first literal that is not. */
  function ParseAll(ss: seq<string>): (res: Result<seq<nat>, ImportError>)
    ensures res.Ok? <==> forall k :: 0 <= k < |ss| ==> IsHexNumeral(ss[k])
    ensures res.Ok? ==> |res.value| == |ss| && forall k :: 0 <= k < |ss| ==> res.value[k] == HexValue(ss[k])
    ensures res.Err? ==> exists k :: 0 <= k < |ss| && !IsHexNumeral(ss[k]) && res.error == BadHexLiteral(ss[k])
                                     && forall j :: 0 <= j < k ==> IsHexNumeral(ss[j])
  {
    if ss == [] then Ok([])
    else
      match ParseHex(ss[0])
      case Err(e) => Err(e)
      case Ok(v) =>
        match ParseAll(ss[1..])
        case Err(e) =>
          assert forall k :: 1 <= k < |ss| ==> ss[k] == ss[1..][k - 1];
          Err(e)
        case Ok(vs) =>
          assert forall k :: 1 <= k < |ss| ==> ss[k] == ss[1..][k - 1];
          Ok([v] + vs)
  }

  /** `[int(line.strip(), 16) for line in f if line.strip()]`: at most one
      value per line, and none at all from blank lines only. */
  function DecodeLines(ls: seq<string>): (res: Result<seq<nat>, ImportError>)
    ensures res.Ok? ==> |res.value| <= |ls|
    ensures (forall k :: 0 <= k < |ls| ==> AllSpace(ls[k])) ==> res == Ok([])
  {
    ParseAll(Kept(ls))
  }

  /** `np.array(values, dtype=np.uint8)`: every value must fit in a byte; the
      first one that does not is reported. */
  function ToPixels(values: seq<nat>): (res: Result<seq<byte>, ImportError>)
    ensures res.Ok? <==> forall i :: 0 <= i < |values| ==> values[i] < 256
    ensures res.Ok? ==> res.value == values
    ensures res.Err? ==> exists i :: 0 <= i < |values| && 256 <= values[i] && res.error == PixelOutOfRange(values[i])
                                     && forall j :: 0 <= j < i ==> values[j] < 256
  {
    if values == [] then Ok([])
    else if 256 <= values[0] then Err(PixelOutOfRange(values[0]))
    else
      match ToPixels(values[1..])
      case Err(e) =>
        assert forall i :: 1 <= i < |values| ==> values[i] == values[1..][i - 1];
        Err(e)
      case Ok(ps) =>
        assert forall i :: 1 <= i < |values| ==> values[i] == values[1..][i - 1];
        Ok([values[0] as byte] + ps)
  }

  /** The values the script reads from a file's text: universal-newline
      translation, then one value per non-blank line. A file of whitespace
      only has no values. */
  function DecodeDump(text: string): (res: Result<seq<nat>, ImportError>)
    ensures AllSpace(text) ==> res == Ok([])
  {
    var res := DecodeLines(Lines(ReadNewlines(text)));
    assert AllSpace(text) ==> res == Ok([]) by {
      if AllSpace(text) {
        BlankLines(text);
      }
    }
    res
  }

  /** The pixel samples of a file's text: its values, each converted to a
      byte. It succeeds exactly when the text parses and every value fits a
      byte, and then the samples are the values; a parse error comes first,
      otherwise the first value that does not fit is reported. */
  function DecodePixels(text: string): (res: Result<seq<byte>, ImportError>)
    ensures res.Ok? <==> DecodeDump(text).Ok? && forall i :: 0 <= i < |DecodeDump(text).value| ==> DecodeDump(text).value[i] < 256
    ensures res.Ok? ==> res.value == DecodeDump(text).value
    ensures DecodeDump(text).Err? ==> res == Err(DecodeDump(text).error)
    ensures DecodeDump(text).Ok? && res.Err? ==>
              var vs := DecodeDump(text).value;
              exists i :: 0 <= i < |vs| && 256 <= vs[i] && res.error == PixelOutOfRange(vs[i])
                          && forall j :: 0 <= j < i ==> vs[j] < 256
  {
    var values :- DecodeDump(text);
    ToPixels(values)
  }

  /** The whole import: parse, convert to bytes, reshape to `(height, width)`.
      It fails at the first of these steps that fails; on success the image,
      read row-major, is the sequence of decoded pixels. */
  function Import(text: string, width: nat, height: nat): (res: Result<seq<seq<byte>>, ImportError>)
    ensures DecodePixels(text).Err? ==> res == Err(DecodePixels(text).error)
    ensures DecodePixels(text).Ok? ==> (res.Ok? <==> |DecodePixels(text).value| == height * width)
    ensures res.Ok? ==> Grid.IsRect(res.value, height, width)
    ensures res.Ok? ==> Grid.Flatten(res.value) == DecodePixels(text).value
    ensures DecodePixels(text).Ok? && res.Err? ==>
              res.error == ReshapeFailed(Grid.CannotReshape(|DecodePixels(text).value|, height, width))
  {
    var pixels :- DecodePixels(text);
    match Grid.Reshape(pixels, height, width)
    case Ok(g) =>
      Grid.FlattenReshape(pixels, height, width);
      Ok(g)
    case Err(e) => Err(ReshapeFailed(e))
  }

  /** After a successful import, the pixel at row `r`, column `c` is the
      value read from non-blank line `r * width + c`. */
  lemma ImportIndex(text: string, width: nat, height: nat)
    requires Import(text, width, height).Ok?
    ensures forall r: nat, c: nat :: r < height && c < width ==>
              Grid.CellAt(Import(text, width, height).value, DecodePixels(text).value, width, r, c)
  {
    var g := Import(text, width, height).value;
    Grid.FlattenIndex(g, height, width);
  }

  /** The script as written: a 64 x 64 image, so exactly 4096 values. */
  function ImportFixed(text: string): (res: Result<seq<seq<byte>>, ImportError>)
    ensures res.Ok? ==> DecodePixels(text).Ok? && |DecodePixels(text).value| == 4096
    ensures res.Ok? ==> Grid.IsRect(res.value, 64, 64)
  {
    Import(text, Width, Height)
  }

  /** A blank line contributes no literal, any other line exactly one: its
      stripped text. */
  lemma KeptLine(line: string)
    ensures AllSpace(line) ==> Kept([line]) == []
    ensures !AllSpace(line) ==> Kept([line]) == [Strip(line)]
  {
    assert [line][1..] == [];
  }

  /** A blank line decodes to no value; any other line to exactly one, the
      value of its stripped text, or to that text's parse error. */
  lemma DecodeOneLine(line: string)
    ensures AllSpace(line) ==> DecodeLines([line]) == Ok([])
    ensures !AllSpace(line) ==> (DecodeLines([line]).Ok? <==> DecodeLine(line).Ok?)
    ensures !AllSpace(line) && DecodeLine(line).Ok? ==> DecodeLines([line]) == Ok([DecodeLine(line).value])
    ensures !AllSpace(line) && DecodeLine(line).Err? ==> DecodeLines([line]) == Err(DecodeLine(line).error)
  {
    KeptLine(line);
    if !AllSpace(line) {
      var q := Strip(line);
      assert [q][0] == q && [q][1..] == [];
      assert ParseAll([]) == Ok([]);
      if ParseHex(q).Ok? {
        assert [ParseHex(q).value] + [] == [ParseHex(q).value];
      }
    }
  }

  /** Filtering preserves file order: the literals of `a + b` are those of
      `a` followed by those of `b`. */
  lemma {:induction false} KeptAppend(a: seq<string>, b: seq<string>)
    ensures Kept(a + b) == Kept(a) + Kept(b)
  {
    if a == [] {
      assert a + b == b;
    } else {
      assert (a + b)[0] == a[0] && (a + b)[1..] == a[1..] + b;
      KeptAppend(a[1..], b);
    }
  }

  /** Parsing distributes over concatenation, and the first error wins. */
  lemma {:induction false} ParseAllAppend(a: seq<string>, b: seq<string>)
    ensures ParseAll(a + b) ==
              match ParseAll(a)
              case Err(e) => Err(e)
              case Ok(va) =>
                match ParseAll(b)
                case Err(e) => Err(e)
                case Ok(vb) => Ok(va + vb)
  {
    if a == [] {
      assert a + b == b;
      assert ParseAll(a) == Ok([]);
      if ParseAll(b).Ok? {
        assert [] + ParseAll(b).value == ParseAll(b).value;
      }
    } else {
      assert (a + b)[0] == a[0] && (a + b)[1..] == a[1..] + b;
      ParseAllAppend(a[1..], b);
      if ParseHex(a[0]).Ok? && ParseAll(a[1..]).Ok? && ParseAll(b).Ok? {
        var v, va, vb := ParseHex(a[0]).value, ParseAll(a[1..]).value, ParseAll(b).value;
        assert [v] + (va + vb) == ([v] + va) + vb;
      }
    }
  }

  /** Decoding the concatenation of two files gives the values of the first
      followed by those of the second; an error in the first wins. */
  lemma DecodeLinesAppend(a: seq<string>, b: seq<string>)
    ensures DecodeLines(a + b) ==
              match DecodeLines(a)
              case Err(e) => Err(e)
              case Ok(va) =>
                match DecodeLines(b)
                case Err(e) => Err(e)
                case Ok(vb) => Ok(va + vb)
  {
    KeptAppend(a, b);
    ParseAllAppend(Kept(a), Kept(b));
  }

  /** Blank lines may be inserted anywhere without changing the result. */
  lemma InsertBlankLine(a: seq<string>, blank: string, b: seq<string>)
    requires AllSpace(blank)
    ensures DecodeLines(a + [blank] + b) == DecodeLines(a + b)
  {
    KeptAppend(a + [blank], b);
    KeptAppend(a, [blank]);
    KeptAppend(a, b);
    KeptLine(blank);
    assert Kept(a) + [] == Kept(a);
  }

  /** Whitespace around the digits, the line terminator included, is ignored. */
  lemma DecodeLinePadded(a: string, line: string, b: string)
    requires AllSpace(a) && AllSpace(b)
    ensures DecodeLine(a + line + b) == DecodeLine(line)
  {
    StripPadded(a, line, b);
  }

  /** Letter digits may be written in either case. */
  lemma ParseHexIgnoresCase(s: string)
    ensures ParseHex(LowerAscii(s)).Ok? <==> ParseHex(s).Ok?
    ensures ParseHex(s).Ok? ==> ParseHex(LowerAscii(s)).value == ParseHex(s).value
  {
    if IsHexNumeral(s) {
      HexValueIgnoresCase(s);
    } else if s != [] {
      var i :| 0 <= i < |s| && !IsHexDigit(s[i]);
      assert !IsHexDigit(LowerAscii(s)[i]);
    }
  }

  /** A line reads the same whichever the case of its letter digits. */
  lemma DecodeLineIgnoresCase(line: string)
    ensures DecodeLine(LowerAscii(line)).Ok? <==> DecodeLine(line).Ok?
    ensures DecodeLine(line).Ok? ==> DecodeLine(LowerAscii(line)).value == DecodeLine(line).value
  {
    StripLowerAscii(line);
    ParseHexIgnoresCase(Strip(line));
  }

  /** Lower-casing commutes with `strip()`: it maps whitespace to whitespace
      and every other character to a non-whitespace one. */
  lemma StripLowerAscii(s: string)
    ensures Strip(LowerAscii(s)) == LowerAscii(Strip(s))
  {
    var t := LowerAscii(s);
    if AllSpace(s) {
      assert AllSpace(t);
    } else {
      var i := StripFactor(s);
      var q := Strip(s);
      LowerAsciiFactor(s, i, q);
    }
  }

  lemma LowerAsciiFactor(s: string, i: nat, q: string)
    requires IsTrimmedFactor(s, i, q)
    ensures Strip(LowerAscii(s)) == LowerAscii(q)
  {
    var t, lq := LowerAscii(s), LowerAscii(q);
    assert t[i..i + |q|] == lq;
    assert t[..i] == LowerAscii(s[..i]);
    assert t[i + |q|..] == LowerAscii(s[i + |q|..]);
    StripOfFactor(t, i, lq);
  }

  /** A numeral with whitespace around it, its line terminator for instance,
      decodes to the numeral's value. */
  lemma DecodePaddedNumeral(pre: string, e: string, post: string)
    requires AllSpace(pre) && IsHexNumeral(e) && AllSpace(post)
    ensures DecodeLine(pre + e + post) == Ok(HexValue(e))
  {
    assert !IsSpace(e[0]) && !IsSpace(e[|e| - 1]);
    StripTerminated(e, []);
    assert e + [] == e;
    StripPadded(pre, e, post);
  }

  /** `ff` and `FF` are numerals of value 255. */
  lemma Numeral255()
    ensures IsHexNumeral("ff") && HexValue("ff") == 255
    ensures IsHexNumeral("FF") && HexValue("FF") == 255
  {
    HexValueOfPair("ff");
    HexValueOfPair("FF");
  }

  /** The line terminator is stripped before parsing. */
  lemma DecodeLineTerminated()
    ensures DecodeLine("ff\n") == Ok(255)
  {
    var e, eol := "ff", "\n";
    assert [] + e + eol == "ff\n";
    assert AllSpace(eol);
    Numeral255();
    DecodePaddedNumeral([], e, eol);
  }

  /** Blanks on both sides are stripped before parsing. */
  lemma DecodeLineSpaced()
    ensures DecodeLine(" ff ") == Ok(255)
  {
    var pad, e := " ", "ff";
    assert pad + e + pad == " ff ";
    assert AllSpace(pad);
    Numeral255();
    DecodePaddedNumeral(pad, e, pad);
  }

  /** Upper-case digits read like lower-case ones. */
  lemma DecodeLineUpperCase()
    ensures DecodeLine("FF") == Ok(255)
  {
    var e := "FF";
    assert [] + e + [] == "FF";
    Numeral255();
    DecodePaddedNumeral([], e, []);
  }

  /** A line that is not a hexadecimal numeral is an error, not a value. */
  lemma DecodeLineInvalid()
    ensures DecodeLine("fg") == Err(BadHexLiteral("fg"))
    ensures DecodeLine("f f") == Err(BadHexLiteral("f f"))
  {
    StripTerminated("fg", "");
    assert "fg" + "" == "fg";
    assert !IsHexDigit("fg"[1]);
    StripTerminated("f f", "");
    assert "f f" + "" == "f f";
    assert !IsHexDigit("f f"[1]);
  }
}
