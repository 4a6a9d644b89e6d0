/** The parts of Python's text handling the two scripts rely on: `str.strip()`
    with no argument, universal-newline translation when a file opened in text
    mode is read or written, and iteration over the lines of such a file. */
module Text {

  /** `a` is its head followed by its tail, also in front of `r`. */
  lemma ConsAssoc(a: string, r: string)
    requires a != []
    ensures a + r == [a[0]] + (a[1..] + r)
  {
    assert a == [a[0]] + a[1..];
  }

  /** Characters for which `str.isspace()` holds, the set `strip()` removes. */
  predicate IsSpace(c: char) {
    var n := c as int;
    || 0x09 <= n <= 0x0D
    || 0x1C <= n <= 0x20
    || n == 0x85 || n == 0xA0 || n == 0x1680
    || 0x2000 <= n <= 0x200A
    || n == 0x2028 || n == 0x2029 || n == 0x202F || n == 0x205F || n == 0x3000
  }

  predicate AllSpace(s: string) {
    forall i :: 0 <= i < |s| ==> IsSpace(s[i])
  }

  /** Whitespace-only texts are closed under concatenation and splitting. */
  lemma AllSpaceAppend(a: string, b: string)
    ensures AllSpace(a + b) <==> AllSpace(a) && AllSpace(b)
  {
    assert forall k :: 0 <= k < |a| ==> a[k] == (a + b)[k];
    assert forall k :: 0 <= k < |b| ==> b[k] == (a + b)[|a| + k];
  }

  /** `lstrip()`: the suffix left after dropping the leading whitespace. */
  function TrimLeft(s: string): (r: string)
    ensures |r| <= |s| && r == s[|s| - |r|..]
    ensures AllSpace(s[..|s| - |r|])
    ensures r != [] ==> !IsSpace(r[0])
  {
    if s != [] && IsSpace(s[0]) then
      var r := TrimLeft(s[1..]);
      assert s[..|s| - |r|] == [s[0]] + s[1..][..|s| - 1 - |r|];
      AllSpaceAppend([s[0]], s[1..][..|s| - 1 - |r|]);
      r
    else
      s
  }

  /** `rstrip()`: the prefix left after dropping the trailing whitespace. */
  function TrimRight(s: string): (r: string)
    ensures |r| <= |s| && r == s[..|r|]
    ensures AllSpace(s[|r|..])
    ensures r != [] ==> !IsSpace(r[|r| - 1])
  {
    if s != [] && IsSpace(s[|s| - 1]) then
      var r := TrimRight(s[..|s| - 1]);
      assert s[|r|..] == s[..|s| - 1][|r|..] + [s[|s| - 1]];
      AllSpaceAppend(s[..|s| - 1][|r|..], [s[|s| - 1]]);
      r
    else
      s
  }

  /** `lstrip()` leaves nothing exactly of a whitespace-only text. */
  lemma TrimLeftEmpty(s: string)
    ensures TrimLeft(s) == [] <==> AllSpace(s)
  {
    var t := TrimLeft(s);
    assert s == s[..|s| - |t|] + t;
    AllSpaceAppend(s[..|s| - |t|], t);
  }

  /** `rstrip()` leaves nothing exactly of a whitespace-only text. */
  lemma TrimRightEmpty(s: string)
    ensures TrimRight(s) == [] <==> AllSpace(s)
  {
    var r := TrimRight(s);
    assert s == r + s[|r|..];
    AllSpaceAppend(r, s[|r|..]);
  }

  /** `strip()`: what is left after removing whitespace at both ends; it is
      empty exactly when `s` is all whitespace, and otherwise starts and ends
      with a non-whitespace character. */
  function Strip(s: string): (r: string)
    ensures |r| <= |s|
    ensures r != [] ==> !IsSpace(r[0]) && !IsSpace(r[|r| - 1])
    ensures r == [] <==> AllSpace(s)
  {
    var t := TrimLeft(s);
    var r := TrimRight(t);
    TrimLeftEmpty(s);
    TrimRightEmpty(t);
    r
  }

  /** The result of `strip()` is the factor of `s` at offset `i`, with only
      whitespace before and after it. */
  lemma StripFactor(s: string) returns (i: nat)
    ensures i + |Strip(s)| <= |s|
    ensures Strip(s) == s[i..i + |Strip(s)|]
    ensures AllSpace(s[..i]) && AllSpace(s[i + |Strip(s)|..])
    ensures Strip(s) != [] ==> IsTrimmedFactor(s, i, Strip(s))
  {
    var t := TrimLeft(s);
    var r := TrimRight(t);
    assert Strip(s) == r;
    i := |s| - |t|;
    assert s[i + |r|..] == t[|r|..];
    assert s[i..i + |r|] == t[..|r|];
  }

  /** A factor of `x` bounded by whitespace and starting and ending with a
      non-whitespace character. */
  predicate IsTrimmedFactor(x: string, i: nat, q: string) {
    && q != [] && !IsSpace(q[0]) && !IsSpace(q[|q| - 1])
    && i + |q| <= |x| && x[i..i + |q|] == q
    && AllSpace(x[..i]) && AllSpace(x[i + |q|..])
  }

  /** There is at most one trimmed factor: both start at the first and end
      at the last non-whitespace character of `x`. */
  lemma TrimmedFactorUnique(x: string, i: nat, q: string, j: nat, r: string)
    requires IsTrimmedFactor(x, i, q) && IsTrimmedFactor(x, j, r)
    ensures i == j && q == r
  {
    assert forall k :: 0 <= k < i ==> IsSpace(x[k]) by { assert forall k :: 0 <= k < i ==> x[..i][k] == x[k]; }
    assert forall k :: 0 <= k < j ==> IsSpace(x[k]) by { assert forall k :: 0 <= k < j ==> x[..j][k] == x[k]; }
    assert forall k :: i + |q| <= k < |x| ==> IsSpace(x[k]) by {
      assert forall k :: i + |q| <= k < |x| ==> x[i + |q|..][k - i - |q|] == x[k];
    }
    assert forall k :: j + |r| <= k < |x| ==> IsSpace(x[k]) by {
      assert forall k :: j + |r| <= k < |x| ==> x[j + |r|..][k - j - |r|] == x[k];
    }
    assert x[j] == r[0] && x[j + |r| - 1] == r[|r| - 1];
    assert x[i] == q[0] && x[i + |q| - 1] == q[|q| - 1];
  }

  /** Conversely, a trimmed factor is what `strip()` returns. */
  lemma StripOfFactor(x: string, i: nat, q: string)
    requires IsTrimmedFactor(x, i, q)
    ensures Strip(x) == q
  {
    assert x[i] == q[0];
    assert !AllSpace(x);
    var j := StripFactor(x);
    TrimmedFactorUnique(x, i, q, j, Strip(x));
  }

  /** Padding a text with whitespace keeps its trimmed factor, shifted. */
  lemma PaddedFactor(a: string, s: string, b: string, j: nat, q: string)
    requires AllSpace(a) && AllSpace(b) && IsTrimmedFactor(s, j, q)
    ensures Strip(a + s + b) == q
  {
    var x, p := a + s + b, |a| + j;
    assert x[p..p + |q|] == s[j..j + |q|];
    assert x[..p] == a + s[..j];
    AllSpaceAppend(a, s[..j]);
    assert x[p + |q|..] == s[j + |q|..] + b;
    AllSpaceAppend(s[j + |q|..], b);
    StripOfFactor(x, p, q);
  }

  /** Whitespace around a text does not change what `strip()` yields. */
  lemma StripPadded(a: string, s: string, b: string)
    requires AllSpace(a) && AllSpace(b)
    ensures Strip(a + s + b) == Strip(s)
  {
    if AllSpace(s) {
      AllSpaceAppend(a, s);
      AllSpaceAppend(a + s, b);
    } else {
      StripPaddedNonBlank(a, s, b);
    }
  }

  lemma StripPaddedNonBlank(a: string, s: string, b: string)
    requires AllSpace(a) && AllSpace(b) && Strip(s) != []
    ensures Strip(a + s + b) == Strip(s)
  {
    var j := StripFactor(s);
    PaddedFactor(a, s, b, j, Strip(s));
  }

  /** A text that neither starts nor ends with whitespace is what `strip()`
      makes of it followed by a line terminator. */
  lemma StripTerminated(e: string, eol: string)
    requires e != [] && !IsSpace(e[0]) && !IsSpace(e[|e| - 1])
    requires AllSpace(eol)
    ensures Strip(e + eol) == e
  {
    var x := e + eol;
    assert x[0..|e|] == e && x[..0] == [] && x[|e|..] == eol;
    StripOfFactor(x, 0, e);
  }

  /** The newline convention of the platform: `os.linesep`. */
  datatype Newline = LF | CRLF

  function LineSep(nl: Newline): string {
    match nl
    case LF => "\n"
    case CRLF => "\r\n"
  }

  /** Writing in text mode turns every `'\n'` into the platform's line separator. */
  function WriteNewlines(t: string, nl: Newline): (r: string)
    ensures |r| >= |t|
    ensures nl == LF ==> r == t
    ensures '\n' !in t ==> r == t
  {
    if t == [] then []
    else (if t[0] == '\n' then LineSep(nl) else [t[0]]) + WriteNewlines(t[1..], nl)
  }

  /** Text free of `'\n'` is written unchanged, whatever follows it. */
  lemma {:induction false} WritePlain(a: string, b: string, nl: Newline)
    requires '\n' !in a
    ensures WriteNewlines(a + b, nl) == a + WriteNewlines(b, nl)
  {
    if a == [] {
      assert a + b == b;
    } else {
      var x, r := a + b, WriteNewlines(b, nl);
      assert x[0] == a[0] && x[1..] == a[1..] + b;
      assert x[0] != '\n' && '\n' !in a[1..];
      assert WriteNewlines(x, nl) == [a[0]] + WriteNewlines(x[1..], nl);
      WritePlain(a[1..], b, nl);
      ConsAssoc(a, r);
    }
  }

  /** Every `'\n'` is written as the platform's line separator: `"\r\n"`
      under CRLF. */
  lemma WriteNewline(a: string, b: string, nl: Newline)
    requires '\n' !in a
    ensures WriteNewlines(a + "\n" + b, nl) == a + LineSep(nl) + WriteNewlines(b, nl)
  {
    var t, r := "\n" + b, WriteNewlines(b, nl);
    assert a + "\n" + b == a + t;
    WritePlain(a, t, nl);
    assert t[0] == '\n' && t[1..] == b;
    assert a + (LineSep(nl) + r) == a + LineSep(nl) + r;
  }

  /** Reading in text mode (universal newlines) turns `"\r\n"` and a lone
      `'\r'` into `'\n'`; a text free of `'\r'` passes through unchanged. */
  function ReadNewlines(t: string): (r: string)
    ensures '\r' !in r
    ensures '\r' !in t ==> r == t
    ensures |r| <= |t|
  {
    if t == [] then []
    else if t[0] == '\r' then
      if |t| > 1 && t[1] == '\n' then "\n" + ReadNewlines(t[2..]) else "\n" + ReadNewlines(t[1..])
    else [t[0]] + ReadNewlines(t[1..])
  }

  /** Text free of `'\r'` is read unchanged, whatever follows it. */
  lemma {:induction false} ReadPlain(a: string, b: string)
    requires '\r' !in a
    ensures ReadNewlines(a + b) == a + ReadNewlines(b)
  {
    if a == [] {
      assert a + b == b;
    } else {
      var x, r := a + b, ReadNewlines(b);
      assert x[0] == a[0] && x[1..] == a[1..] + b;
      assert x[0] != '\r' && '\r' !in a[1..];
      assert ReadNewlines(x) == [a[0]] + ReadNewlines(x[1..]);
      ReadPlain(a[1..], b);
      ConsAssoc(a, r);
    }
  }

  /** A leading `"\r\n"` is read as `'\n'`. */
  lemma ReadLeadingCRLF(b: string)
    ensures ReadNewlines("\r\n" + b) == "\n" + ReadNewlines(b)
  {
    var t := "\r\n" + b;
    assert t[0] == '\r' && t[1] == '\n' && t[2..] == b;
  }

  /** A leading `'\r'` not followed by `'\n'` is read as `'\n'`. */
  lemma ReadLeadingCR(b: string)
    requires b == [] || b[0] != '\n'
    ensures ReadNewlines("\r" + b) == "\n" + ReadNewlines(b)
  {
    var t := "\r" + b;
    assert t[0] == '\r' && t[1..] == b;
  }

  /** A `"\r\n"` pair is read as a single `'\n'`. */
  lemma ReadCRLF(a: string, b: string)
    requires '\r' !in a
    ensures ReadNewlines(a + "\r\n" + b) == a + "\n" + ReadNewlines(b)
  {
    var t, r := "\r\n" + b, ReadNewlines(b);
    assert a + "\r\n" + b == a + t;
    ReadPlain(a, t);
    ReadLeadingCRLF(b);
    assert a + ("\n" + r) == a + "\n" + r;
  }

  /** A `'\r'` not followed by `'\n'` is read as a `'\n'` of its own, so it
      ends a line. */
  lemma ReadLoneCR(a: string, b: string)
    requires '\r' !in a
    requires b == [] || b[0] != '\n'
    ensures ReadNewlines(a + "\r" + b) == a + "\n" + ReadNewlines(b)
  {
    var t, r := "\r" + b, ReadNewlines(b);
    assert a + "\r" + b == a + t;
    ReadPlain(a, t);
    ReadLeadingCR(b);
    assert a + ("\n" + r) == a + "\n" + r;
  }

  /** What a text-mode write stores, a text-mode read gives back, whichever
      the platform's line separator, provided the text holds no `'\r'`. */
  lemma {:induction false} ReadAfterWrite(t: string, nl: Newline)
    requires '\r' !in t
    ensures ReadNewlines(WriteNewlines(t, nl)) == t
  {
    if t != [] {
      var w := WriteNewlines(t, nl);
      assert '\r' !in t[1..];
      ReadAfterWrite(t[1..], nl);
      if t[0] == '\n' && nl == CRLF {
        assert w[2..] == WriteNewlines(t[1..], nl);
      } else {
        assert w[0] == t[0] && w[1..] == WriteNewlines(t[1..], nl);
      }
    }
  }

  /** The concatenation of a sequence of lines. */
  function Concat(ls: seq<string>): (t: string)
  {
    if ls == [] then [] else ls[0] + Concat(ls[1..])
  }

  /** A line as file iteration yields it: non-empty, `'\n'` at most at its end. */
  predicate IsLine(l: string) {
    |l| > 0 && forall i :: 0 <= i < |l| - 1 ==> l[i] != '\n'
  }

  predicate EndsWithNewline(l: string) {
    |l| > 0 && l[|l| - 1] == '\n'
  }

  /** A split of a text into lines the way `for line in f` splits it. */
  predicate IsLineSplit(ls: seq<string>, t: string) {
    && Concat(ls) == t
    && (forall i :: 0 <= i < |ls| ==> IsLine(ls[i]))
    && (forall i :: 0 <= i < |ls| - 1 ==> EndsWithNewline(ls[i]))
  }

  /** Length of the first line of `t`, its `'\n'` included. */
  function LineLength(t: string): (k: nat)
    requires t != []
    ensures 0 < k <= |t|
    ensures forall i :: 0 <= i < k - 1 ==> t[i] != '\n'
    ensures t[k - 1] == '\n' || k == |t|
  {
    if t[0] == '\n' || |t| == 1 then 1 else 1 + LineLength(t[1..])
  }

  /** Iterating over a file: each line keeps its terminating `'\n'`; only the
      last may lack one, and no empty line is produced at the end. */
  function Lines(t: string): (ls: seq<string>)
    ensures IsLineSplit(ls, t)
    decreases |t|
  {
    if t == [] then []
    else
      var k := LineLength(t);
      var rest := Lines(t[k..]);
      assert t[..k] + t[k..] == t;
      [t[..k]] + rest
  }

  /** The split into lines is unique: `Lines` is the only one. */
  lemma {:induction false} LineSplitUnique(ls: seq<string>, t: string)
    requires IsLineSplit(ls, t)
    ensures ls == Lines(t)
    decreases |ls|
  {
    if ls != [] {
      var l := ls[0];
      assert t == l + Concat(ls[1..]);
      assert t[..|l|] == l;
      var k := LineLength(t);
      if |ls| > 1 {
        assert EndsWithNewline(l);
      } else {
        assert Concat(ls[1..]) == [];
      }
      assert k == |l|;
      assert t[k..] == Concat(ls[1..]);
      LineSplitUnique(ls[1..], t[k..]);
    } else {
      assert t == [];
    }
  }

  /** Universal-newline reading turns whitespace into whitespace. */
  lemma {:induction false} ReadNewlinesSpace(t: string)
    requires AllSpace(t)
    ensures AllSpace(ReadNewlines(t))
  {
    if t != [] {
      if t[0] == '\r' && |t| > 1 && t[1] == '\n' {
        ReadNewlinesSpace(t[2..]);
        AllSpaceAppend("\n", ReadNewlines(t[2..]));
      } else {
        ReadNewlinesSpace(t[1..]);
        var c := if t[0] == '\r' then "\n" else [t[0]];
        AllSpaceAppend(c, ReadNewlines(t[1..]));
      }
    }
  }

  /** Every piece of a whitespace-only concatenation is whitespace. */
  lemma {:induction false} ConcatSpace(ls: seq<string>)
    requires AllSpace(Concat(ls))
    ensures forall k :: 0 <= k < |ls| ==> AllSpace(ls[k])
  {
    if ls != [] {
      AllSpaceAppend(ls[0], Concat(ls[1..]));
      ConcatSpace(ls[1..]);
      assert forall k :: 1 <= k < |ls| ==> ls[k] == ls[1..][k - 1];
    }
  }

  /** A whitespace-only file has only blank lines. */
  lemma BlankLines(t: string)
    requires AllSpace(t)
    ensures forall k :: 0 <= k < |Lines(ReadNewlines(t))| ==> AllSpace(Lines(ReadNewlines(t))[k])
  {
    ReadNewlinesSpace(t);
    ConcatSpace(Lines(ReadNewlines(t)));
  }
}
