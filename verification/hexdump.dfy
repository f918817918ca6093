/** The hex renderer of the `HexDump` class: `Hex` renders a byte array line by line
    into a reused character buffer, and `GetHex` renders the first bytes of a file. */
module HexDump {
  import opened Text

  /** C#'s `byte`. */
  newtype Byte = x: int | 0 <= x < 256

  datatype Result<T, E> = Ok(value: T) | Err(error: E)

  /** The exceptions `Hex` can raise. */
  datatype HexError =
    | ArgumentOutOfRange  // `new string(' ', count)` with a negative count
    | DivideByZero        // the line-count estimate divides by `bytesPerLine`

  /** What the file system gives `GetHex` for a path. */
  datatype FileState =
    | Missing                      // `File.Exists` is false
    | Unreadable(message: string)  // opening or reading throws; the exception's text
    | Readable(contents: seq<Byte>)

  /** `Environment.NewLine`: a line feed, or a carriage return and line feed. */
  predicate IsNewLine(nl: string)
  {
    nl == "\n" || nl == "\r\n"
  }

  /** The digit table `s_hexChars`. */
  const HexChars: string := "0123456789ABCDEF"

  /** At most this many leading bytes of a file are rendered. */
  const SampleLimit: nat := 50

  function Min(a: int, b: int): int
  {
    if a < b then a else b
  }

  /** C#'s integer division for a positive divisor: it truncates toward zero,
      where Dafny's `/` rounds toward minus infinity for a negative dividend. */
  function CsDiv(a: int, b: int): int
    requires b > 0
  {
    if a >= 0 then a / b else -((-a) / b)
  }

  /** `(b >> 4) & 0xF`, the high nibble of a byte. */
  function High(b: Byte): int
  {
    b as int / 16
  }

  /** `b & 0xF`, the low nibble of a byte. */
  function Low(b: Byte): int
  {
    b as int % 16
  }

  /** The value of an upper-case hex digit, -1 for any other character. */
  function HexValue(c: char): int
  {
    if '0' <= c <= '9' then c as int - '0' as int
    else if 'A' <= c <= 'F' then c as int - 'A' as int + 10
    else -1
  }

  /** An upper-case hex digit. */
  predicate IsHexDigit(c: char)
  {
    '0' <= c <= '9' || 'A' <= c <= 'F'
  }

  /** Decoding a digit of the table gives back its index. */
  lemma {:induction false} HexValueOfDigit(v: int)
    requires 0 <= v < 16
    ensures HexValue(HexChars[v]) == v
  {
    if v < 10 {
      assert HexChars[v] == ('0' as int + v) as char;
    } else {
      assert HexChars[v] == ('A' as int + v - 10) as char;
    }
  }

  /** The three columns one byte occupies: its two digits and the separating space. */
  function Cell(b: Byte): string
  {
    [HexChars[High(b)], HexChars[Low(b)], ' ']
  }

  function Cells(bytes: seq<Byte>): (s: string)
    ensures |s| == 3 * |bytes|
  {
    if bytes == [] then [] else Cell(bytes[0]) + Cells(bytes[1..])
  }

  /** Columns of a line before the newline: `firstCharColumn + bytesPerLine`. */
  function LineWidth(bytesPerLine: nat): nat
    requires bytesPerLine >= 1
  {
    bytesPerLine * 3 + (bytesPerLine - 1) / 8 + bytesPerLine
  }

  /** The reference rendering of one line: the cells of its bytes, spaces up to the
      line width, the newline. */
  function Line(chunk: seq<Byte>, bytesPerLine: nat, nl: string): string
    requires 1 <= bytesPerLine && |chunk| <= bytesPerLine
  {
    Cells(chunk) + Repeat(' ', LineWidth(bytesPerLine) - 3 * |chunk|) + nl
  }

  /** The bytes of the line that starts at index `start`: at most `bytesPerLine` of them. */
  function Chunk(bytes: seq<Byte>, start: nat, bytesPerLine: nat): (chunk: seq<Byte>)
    requires start < |bytes|
    ensures |chunk| <= bytesPerLine
  {
    bytes[start..start + Min(bytesPerLine, |bytes| - start)]
  }

  /** Where the chunk after the one at `start` begins: the `i += bytesPerLine` of the
      chunk loop. */
  function NextChunk(start: nat, bytesPerLine: nat): nat
  {
    start + bytesPerLine
  }

  /** The reference rendering of the bytes from index `start` on: one line per
      `bytesPerLine` bytes, the last one possibly short. */
  function Dump(bytes: seq<Byte>, start: nat, bytesPerLine: nat, nl: string): string
    requires bytesPerLine >= 1
    decreases |bytes| - start
  {
    if start >= |bytes| then []
    else Line(Chunk(bytes, start, bytesPerLine), bytesPerLine, nl) + Dump(bytes, NextChunk(start, bytesPerLine), bytesPerLine, nl)
  }

  /** The digit in column 3j of a line: byte j's high nibble, or a space past the chunk. */
  function HighColumn(chunk: seq<Byte>, j: nat): char
  {
    if j < |chunk| then HexChars[High(chunk[j])] else ' '
  }

  /** The digit in column 3j+1 of a line: byte j's low nibble, or a space past the chunk. */
  function LowColumn(chunk: seq<Byte>, j: nat): char
  {
    if j < |chunk| then HexChars[Low(chunk[j])] else ' '
  }

  /** Byte `j` of a sequence sits in columns 3j, 3j+1 and 3j+2 of its cells. */
  lemma {:induction false} CellsAt(bytes: seq<Byte>, j: nat)
    requires j < |bytes|
    ensures Cells(bytes)[3 * j] == HexChars[High(bytes[j])]
    ensures Cells(bytes)[3 * j + 1] == HexChars[Low(bytes[j])]
    ensures Cells(bytes)[3 * j + 2] == ' '
  {
    if j > 0 {
      CellsAt(bytes[1..], j - 1);
    }
  }

  /** Slot `j` of a line: the two digits of byte j, or two spaces past the end of the
      chunk, and then a space. */
  lemma LineCell(chunk: seq<Byte>, bytesPerLine: nat, nl: string, j: nat)
    requires 1 <= bytesPerLine && |chunk| <= bytesPerLine && j < bytesPerLine
    ensures |Line(chunk, bytesPerLine, nl)| == LineWidth(bytesPerLine) + |nl|
    ensures 3 * j + 2 < LineWidth(bytesPerLine)
    ensures Line(chunk, bytesPerLine, nl)[3 * j] == HighColumn(chunk, j)
    ensures Line(chunk, bytesPerLine, nl)[3 * j + 1] == LowColumn(chunk, j)
    ensures Line(chunk, bytesPerLine, nl)[3 * j + 2] == ' '
  {
    var pad := LineWidth(bytesPerLine) - 3 * |chunk|;
    if j < |chunk| {
      CellsAt(chunk, j);
    } else {
      RepeatAt(' ', pad, 3 * j - 3 * |chunk|);
      RepeatAt(' ', pad, 3 * j + 1 - 3 * |chunk|);
      RepeatAt(' ', pad, 3 * j + 2 - 3 * |chunk|);
    }
  }

  /** After the slots a line holds spaces up to its width, then the newline. */
  lemma LineTail(chunk: seq<Byte>, bytesPerLine: nat, nl: string)
    requires 1 <= bytesPerLine && |chunk| <= bytesPerLine
    ensures |Line(chunk, bytesPerLine, nl)| == LineWidth(bytesPerLine) + |nl|
    ensures forall k :: 3 * bytesPerLine <= k < LineWidth(bytesPerLine) ==> Line(chunk, bytesPerLine, nl)[k] == ' '
    ensures Line(chunk, bytesPerLine, nl)[LineWidth(bytesPerLine)..] == nl
  {
    var pad := LineWidth(bytesPerLine) - 3 * |chunk|;
    forall k | 3 * bytesPerLine <= k < LineWidth(bytesPerLine)
      ensures Line(chunk, bytesPerLine, nl)[k] == ' '
    {
      RepeatAt(' ', pad, k - 3 * |chunk|);
    }
  }

  /** The buffer's columns that no byte writes: the space after each slot and the
      padding before the newline, then the newline. */
  ghost predicate Blank(line: seq<char>, bytesPerLine: nat, nl: string)
    requires bytesPerLine >= 1 && |line| == LineWidth(bytesPerLine) + |nl|
  {
    (forall k :: 0 <= k < 3 * bytesPerLine && k % 3 == 2 ==> line[k] == ' ') &&
    (forall k :: 3 * bytesPerLine <= k < LineWidth(bytesPerLine) ==> line[k] == ' ') &&
    line[LineWidth(bytesPerLine)..] == nl
  }

  /** A buffer whose untouched columns are blank and whose slots hold the digits of
      `chunk` is the reference line of `chunk`. */
  lemma BufferIsLine(line: seq<char>, chunk: seq<Byte>, bytesPerLine: nat, nl: string)
    requires 1 <= bytesPerLine && |chunk| <= bytesPerLine
    requires |line| == LineWidth(bytesPerLine) + |nl| && Blank(line, bytesPerLine, nl)
    requires forall jj :: 0 <= jj < bytesPerLine ==>
      line[3 * jj] == HighColumn(chunk, jj) && line[3 * jj + 1] == LowColumn(chunk, jj)
    ensures line == Line(chunk, bytesPerLine, nl)
  {
    var width := LineWidth(bytesPerLine);
    LineTail(chunk, bytesPerLine, nl);
    forall k | 0 <= k < |line|
      ensures line[k] == Line(chunk, bytesPerLine, nl)[k]
    {
      if k < 3 * bytesPerLine {
        LineCell(chunk, bytesPerLine, nl, k / 3);
      } else if k >= width {
        assert line[k] == line[width..][k - width];
      }
    }
  }

  /** Writing the digits of slot `j` keeps the blank columns blank and fills that slot. */
  lemma SlotWrite(was: seq<char>, now: seq<char>, chunk: seq<Byte>, bytesPerLine: nat, nl: string, j: nat)
    requires 1 <= bytesPerLine && j < bytesPerLine
    requires |was| == LineWidth(bytesPerLine) + |nl| && Blank(was, bytesPerLine, nl)
    requires forall jj :: 0 <= jj < j ==>
      was[3 * jj] == HighColumn(chunk, jj) && was[3 * jj + 1] == LowColumn(chunk, jj)
    requires |now| == |was| && now[3 * j] == HighColumn(chunk, j) && now[3 * j + 1] == LowColumn(chunk, j)
    requires forall k :: 0 <= k < |now| && k != 3 * j && k != 3 * j + 1 ==> now[k] == was[k]
    ensures Blank(now, bytesPerLine, nl)
    ensures forall jj :: 0 <= jj <= j ==>
      now[3 * jj] == HighColumn(chunk, jj) && now[3 * jj + 1] == LowColumn(chunk, jj)
  {
    var width := LineWidth(bytesPerLine);
    forall k | 0 <= k < 3 * bytesPerLine && k % 3 == 2
      ensures now[k] == ' '
    {
      assert k != 3 * j && k != 3 * j + 1;
    }
    assert now[width..] == was[width..];
  }

  /** Appending the line of the chunk at `start` to the lines rendered before it keeps
      "rendered so far, then the rest" equal to the whole rendering. */
  lemma DumpStep(bytes: seq<Byte>, start: nat, bytesPerLine: nat, nl: string,
                 before: string, line: string, after: string, whole: string)
    requires bytesPerLine >= 1 && start < |bytes|
    requires before + Dump(bytes, start, bytesPerLine, nl) == whole
    requires line == Line(Chunk(bytes, start, bytesPerLine), bytesPerLine, nl)
    requires after == before + line
    ensures after + Dump(bytes, NextChunk(start, bytesPerLine), bytesPerLine, nl) == whole
  {
    assert Dump(bytes, start, bytesPerLine, nl) == line + Dump(bytes, NextChunk(start, bytesPerLine), bytesPerLine, nl);
    Associative(before, line, Dump(bytes, NextChunk(start, bytesPerLine), bytesPerLine, nl));
  }

  lemma Associative(a: string, b: string, c: string)
    ensures (a + b) + c == a + (b + c)
  {
  }

  /** The slot loop of `Hex`: for each of the `bytesPerLine` slots of the line that
      renders the bytes from index `i`, writes the byte's two digits into the buffer,
      or two spaces past the end of `bytes`. */
  method FillSlots(line: array<char>, bytes: array<Byte>, i: int, bytesPerLine: nat, ghost nl: string, ghost contents: seq<Byte>)
    requires contents == bytes[..]
    requires 1 <= bytesPerLine && 0 <= i < bytes.Length
    requires line.Length == LineWidth(bytesPerLine) + |nl| && Blank(line[..], bytesPerLine, nl)
    modifies line
    ensures bytes[..] == contents
    ensures Blank(line[..], bytesPerLine, nl)
    ensures line[..] == Line(Chunk(contents, i, bytesPerLine), bytesPerLine, nl)
  {
    ghost var chunk := Chunk(contents, i, bytesPerLine);
    var hexColumn := 0;
    var j := 0;
    while j < bytesPerLine
      invariant 0 <= j <= bytesPerLine && hexColumn == 3 * j
      invariant Blank(line[..], bytesPerLine, nl)
      invariant forall jj :: 0 <= jj < j ==>
        line[3 * jj] == HighColumn(chunk, jj) && line[3 * jj + 1] == LowColumn(chunk, jj)
    {
      ghost var was := line[..];
      if i + j >= bytes.Length {
        line[hexColumn] := ' ';
        line[hexColumn + 1] := ' ';
      } else {
        var b := bytes[i + j];
        line[hexColumn] := HexChars[High(b)];
        line[hexColumn + 1] := HexChars[Low(b)];
      }
      SlotWrite(was, line[..], chunk, bytesPerLine, nl, j);
      hexColumn := hexColumn + 3;
      j := j + 1;
    }
    BufferIsLine(line[..], chunk, bytesPerLine, nl);
  }

  /** `HexDump.Hex(bytes, bytesPerLine)`: renders `bytes` into one reused line buffer per
      chunk of `bytesPerLine` bytes and collects the lines. */
  method Hex(bytes: array?<Byte>, bytesPerLine: int, nl: string) returns (r: Result<string, HexError>)
    requires IsNewLine(nl)
    ensures bytes == null ==> r == Ok("<null>")
    ensures bytes != null && bytesPerLine < 0 ==> r == Err(ArgumentOutOfRange)
    ensures bytes != null && bytesPerLine == 0 ==> r == Err(DivideByZero)
    ensures bytes != null && bytesPerLine > 0 ==> r == Ok(Dump(bytes[..], 0, bytesPerLine, nl))
  {
    if bytes == null {
      return Ok("<null>");
    }
    var bytesLength := bytes.Length;
    var firstCharColumn := 0 + bytesPerLine * 3 + CsDiv(bytesPerLine - 1, 8);
    var lineLength := firstCharColumn + bytesPerLine + |nl|;
    if lineLength - |nl| < 0 {
      return Err(ArgumentOutOfRange);
    }
    var blank := Repeat(' ', lineLength - |nl|) + nl;
    var line := new char[lineLength](k requires 0 <= k < lineLength => blank[k]);
    if bytesPerLine == 0 {
      return Err(DivideByZero);
    }
    ghost var width := LineWidth(bytesPerLine);
    assert lineLength == width + |nl|;
    assert line[width..] == nl;
    forall k | 0 <= k < width
      ensures line[k] == ' '
    {
      RepeatAt(' ', width, k);
    }
    ghost var contents := bytes[..];
    ghost var whole := Dump(contents, 0, bytesPerLine, nl);
    var result: string := [];
    var i := 0;
    while i < bytesLength
      invariant 0 <= i
      invariant line.Length == lineLength
      invariant bytes[..] == contents
      invariant Blank(line[..], bytesPerLine, nl)
      invariant result + Dump(contents, i, bytesPerLine, nl) == whole
      decreases bytesLength - i
    {
      FillSlots(line, bytes, i, bytesPerLine, nl, contents);
      ghost var before, rendered := result, line[..];
      result := result + line[..];
      DumpStep(contents, i, bytesPerLine, nl, before, rendered, result, whole);
      i := NextChunk(i, bytesPerLine);
    }
    assert result == Dump(bytes[..], 0, bytesPerLine, nl);
    return Ok(result);
  }

  /** The rendering `GetHex` produces for a file: nothing for a missing file, the
      exception's text for a failed read, otherwise the first bytes as a single line.
      An empty file renders with `bytesPerLine == 0`, so the division by zero in `Hex`
      turns into the exception's text. */
  function Sampled(file: FileState, nl: string, exceptionText: HexError -> string): string
    requires IsNewLine(nl)
  {
    match file
    case Missing => ""
    case Unreadable(message) => message
    case Readable(contents) =>
      var size := Min(|contents|, SampleLimit);
      if size == 0 then exceptionText(DivideByZero) else Dump(contents[..size], 0, size, nl)
  }

  /** `HexDump.GetHex(fileName)`: copies at most the first 50 bytes into a buffer and
      renders them with `bytesPerLine` set to their count; `exceptionText` gives the
      runtime's message for an exception `Hex` raises. */
  method GetHex(file: FileState, nl: string, exceptionText: HexError -> string) returns (outHex: string)
    requires IsNewLine(nl)
    ensures outHex == Sampled(file, nl, exceptionText)
  {
    outHex := "";
    match file {
      case Missing =>
      case Unreadable(message) =>
        outHex := message;
      case Readable(contents) =>
        var size := if |contents| < SampleLimit then |contents| else SampleLimit;
        var buffer := new Byte[size](k requires 0 <= k < size => contents[k]);
        assert buffer[..] == contents[..size];
        var r := Hex(buffer, size, nl);
        match r {
          case Ok(text) => outHex := text;
          case Err(e) => outHex := exceptionText(e);
        }
    }
  }

  /** `Hex(bytes, 50)` of an empty array is empty: the chunk loop never runs. */
  lemma EmptyDump(bytesPerLine: nat, nl: string)
    requires bytesPerLine >= 1
    ensures Dump([], 0, bytesPerLine, nl) == ""
  {
  }

  lemma MulMonotone(a: int, b: int, d: int)
    requires a <= b && d > 0
    ensures a * d <= b * d
  {
    assert b * d - a * d == (b - a) * d;
  }

  lemma DivUnique(a: int, d: int, q: int)
    requires d > 0 && q * d <= a < q * d + d
    ensures a / d == q
  {
    var r := a / d;
    assert a == r * d + a % d;
    if r < q {
      MulMonotone(r + 1, q, d);
    } else if r > q {
      MulMonotone(q + 1, r, d);
    }
  }

  lemma DivStep(x: int, d: int)
    requires x >= 0 && d > 0
    ensures (x + d) / d == x / d + 1
  {
    var q := x / d;
    assert x == q * d + x % d;
    DivUnique(x + d, d, q + 1);
  }

  /** Number of chunk lines from index `start` of `total` bytes. */
  function LineCount(total: nat, start: nat, bytesPerLine: nat): nat
    requires bytesPerLine >= 1
    decreases total - start
  {
    if start >= total then 0 else 1 + LineCount(total, NextChunk(start, bytesPerLine), bytesPerLine)
  }

  /** The line count is the byte count divided by `bytesPerLine`, rounded up. */
  lemma {:induction false} LineCountRoundsUp(total: nat, start: nat, bytesPerLine: nat)
    requires bytesPerLine >= 1 && start <= total
    ensures LineCount(total, start, bytesPerLine) == (total - start + bytesPerLine - 1) / bytesPerLine
    decreases total - start
  {
    if start == total {
      DivUnique(bytesPerLine - 1, bytesPerLine, 0);
    } else if total - start <= bytesPerLine {
      assert LineCount(total, NextChunk(start, bytesPerLine), bytesPerLine) == 0;
      DivUnique(total - start + bytesPerLine - 1, bytesPerLine, 1);
    } else {
      LineCountRoundsUp(total, NextChunk(start, bytesPerLine), bytesPerLine);
      DivStep(total - start - 1, bytesPerLine);
    }
  }

  lemma MulSucc(a: int, b: int)
    ensures (1 + a) * b == b + a * b
  {
  }

  /** Every line has the width of `bytesPerLine` slots plus the newline. */
  lemma LineLength(chunk: seq<Byte>, bytesPerLine: nat, nl: string)
    requires 1 <= bytesPerLine && |chunk| <= bytesPerLine
    ensures |Line(chunk, bytesPerLine, nl)| == LineWidth(bytesPerLine) + |nl|
  {
  }

  /** Every line of the rendering has the same length. */
  lemma {:induction false} DumpLineCount(bytes: seq<Byte>, start: nat, bytesPerLine: nat, nl: string)
    requires bytesPerLine >= 1 && start <= |bytes|
    ensures |Dump(bytes, start, bytesPerLine, nl)| ==
      LineCount(|bytes|, start, bytesPerLine) * (LineWidth(bytesPerLine) + |nl|)
    decreases |bytes| - start
  {
    if start < |bytes| {
      var next := NextChunk(start, bytesPerLine);
      var line := Line(Chunk(bytes, start, bytesPerLine), bytesPerLine, nl);
      assert Dump(bytes, start, bytesPerLine, nl) == line + Dump(bytes, next, bytesPerLine, nl);
      LineLength(Chunk(bytes, start, bytesPerLine), bytesPerLine, nl);
      if next < |bytes| {
        DumpLineCount(bytes, next, bytesPerLine, nl);
      }
      MulSucc(LineCount(|bytes|, next, bytesPerLine), LineWidth(bytesPerLine) + |nl|);
    }
  }

  /** The result has exactly the capacity `Hex` reserves: `expectedLines * lineLength`,
      with `expectedLines` the byte count divided by `bytesPerLine`, rounded up. */
  lemma DumpLength(bytes: seq<Byte>, bytesPerLine: nat, nl: string)
    requires bytesPerLine >= 1
    ensures |Dump(bytes, 0, bytesPerLine, nl)| ==
      ((|bytes| + bytesPerLine - 1) / bytesPerLine) * (LineWidth(bytesPerLine) + |nl|)
  {
    DumpLineCount(bytes, 0, bytesPerLine, nl);
    LineCountRoundsUp(|bytes|, 0, bytesPerLine);
  }

  /** A non-empty file renders as exactly one line of width 3n + (n-1)/8 + n followed by
      the newline, n being the number of bytes sampled. */
  lemma SampleIsOneLine(contents: seq<Byte>, nl: string, exceptionText: HexError -> string)
    requires IsNewLine(nl) && |contents| >= 1
    ensures var n := Min(|contents|, SampleLimit);
      var text := Sampled(Readable(contents), nl, exceptionText);
      text == Line(contents[..n], n, nl) &&
      |text| == 3 * n + (n - 1) / 8 + n + |nl| &&
      text[|text| - |nl|..] == nl
  {
    var n := Min(|contents|, SampleLimit);
    var sample := contents[..n];
    assert Chunk(sample, 0, n) == sample;
    assert Dump(sample, NextChunk(0, n), n, nl) == [];
    assert Dump(sample, 0, n, nl) == Line(sample, n, nl) + [];
    LineTail(sample, n, nl);
  }

  /** The two digits of a byte decode back to it. */
  lemma ByteRoundTrip(b: Byte)
    ensures 16 * HexValue(HexChars[High(b)]) + HexValue(HexChars[Low(b)]) == b as int
  {
    HexValueOfDigit(High(b));
    HexValueOfDigit(Low(b));
  }

  /** Columns 3j and 3j+1 of a sample hold the upper-case digits of byte j's high and low
      nibbles, and decoding them gives the byte back. */
  lemma SampleDigits(contents: seq<Byte>, nl: string, exceptionText: HexError -> string, j: nat)
    requires IsNewLine(nl) && j < Min(|contents|, SampleLimit)
    ensures var text := Sampled(Readable(contents), nl, exceptionText);
      3 * j + 1 < |text| &&
      text[3 * j] == HexChars[High(contents[j])] &&
      text[3 * j + 1] == HexChars[Low(contents[j])] &&
      16 * HexValue(text[3 * j]) + HexValue(text[3 * j + 1]) == contents[j] as int
  {
    var n := Min(|contents|, SampleLimit);
    SampleIsOneLine(contents, nl, exceptionText);
    LineCell(contents[..n], n, nl, j);
    ByteRoundTrip(contents[j]);
  }

  /** Every column of a sample before its newline that is not a digit column is a space:
      the separator after each byte and the padding after the last one. */
  lemma SampleSpaces(contents: seq<Byte>, nl: string, exceptionText: HexError -> string, k: nat)
    requires IsNewLine(nl) && |contents| >= 1
    requires var n := Min(|contents|, SampleLimit);
      k < LineWidth(n) && (k >= 3 * n || k % 3 == 2)
    ensures var text := Sampled(Readable(contents), nl, exceptionText);
      k < |text| && text[k] == ' '
  {
    var n := Min(|contents|, SampleLimit);
    SampleIsOneLine(contents, nl, exceptionText);
    LineTail(contents[..n], n, nl);
    if k < 3 * n {
      LineCell(contents[..n], n, nl, k / 3);
    }
  }

  /** Reads back the bytes of a rendered line: one byte from each slot's two digits. */
  function Decode(text: string, n: nat): (bytes: seq<int>)
    requires 3 * n <= |text|
    ensures |bytes| == n
  {
    seq(n, j requires 0 <= j < n => 16 * HexValue(text[3 * j]) + HexValue(text[3 * j + 1]))
  }

  /** Decoding a sample gives back the sampled bytes. */
  lemma SampleRoundTrip(contents: seq<Byte>, nl: string, exceptionText: HexError -> string)
    requires IsNewLine(nl) && |contents| >= 1
    ensures var n := Min(|contents|, SampleLimit);
      var text := Sampled(Readable(contents), nl, exceptionText);
      3 * n <= |text| &&
      forall j :: 0 <= j < n ==> Decode(text, n)[j] == contents[j] as int
  {
    var n := Min(|contents|, SampleLimit);
    SampleIsOneLine(contents, nl, exceptionText);
    forall j | 0 <= j < n
      ensures Decode(Sampled(Readable(contents), nl, exceptionText), n)[j] == contents[j] as int
    {
      SampleDigits(contents, nl, exceptionText, j);
    }
  }

  /** Every third character of `text`, from column 2 on, is not a hex digit. */
  ghost predicate BrokenEveryThird(text: string)
  {
    forall k :: 0 <= k < |text| && k % 3 == 2 ==> !IsHexDigit(text[k])
  }

  /** In a sample, the separator after each slot, the padding and the newline are
      never hex digits. */
  lemma SampleBrokenEveryThird(contents: seq<Byte>, nl: string, exceptionText: HexError -> string)
    requires IsNewLine(nl) && |contents| >= 1
    ensures BrokenEveryThird(Sampled(Readable(contents), nl, exceptionText))
  {
    var n := Min(|contents|, SampleLimit);
    var text := Sampled(Readable(contents), nl, exceptionText);
    SampleIsOneLine(contents, nl, exceptionText);
    forall k | 0 <= k < |text| && k % 3 == 2
      ensures !IsHexDigit(text[k])
    {
      if k < LineWidth(n) {
        SampleSpaces(contents, nl, exceptionText, k);
      } else {
        assert text[k] == text[|text| - |nl|..][k - (|text| - |nl|)];
      }
    }
  }

  /** A text broken every third character holds no run of three hex digits. */
  lemma NoHexRun(text: string, pattern: string)
    requires BrokenEveryThird(text)
    requires |pattern| >= 3 && forall c :: c in pattern ==> IsHexDigit(c)
    ensures !Contains(text, pattern)
  {
    forall i | 0 <= i <= |text| - |pattern|
      ensures !OccursAt(text, pattern, i)
    {
      var k := 3 * (i / 3) + 2;
      assert text[i..i + |pattern|][k - i] == text[k];
      assert IsHexDigit(pattern[k - i]);
    }
    ContainsIff(text, pattern);
  }

  /** A sample never contains three hex digits in a row: every third column is a space
      or part of the newline. So a pattern of two or more bytes written without spaces
      can never be found in a sample. */
  lemma NoHexRunOfThree(contents: seq<Byte>, nl: string, exceptionText: HexError -> string, pattern: string)
    requires IsNewLine(nl) && |contents| >= 1
    requires |pattern| >= 3 && forall c :: c in pattern ==> IsHexDigit(c)
    ensures !Contains(Sampled(Readable(contents), nl, exceptionText), pattern)
  {
    SampleBrokenEveryThird(contents, nl, exceptionText);
    NoHexRun(Sampled(Readable(contents), nl, exceptionText), pattern);
  }
}
