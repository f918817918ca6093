# FileSigChecker in Dafny

FileSigChecker is a command-line tool. It identifies a file by its leading bytes. It
renders the first 50 bytes of the target as a hex dump. It then scans a table of
`hex|extensions|description` lines (`ext_list.txt`) for the first line whose hex field
occurs in that dump. On the first pass the line's extension field must also mention the
target's extension; when no line qualifies, a second pass drops that condition. The
accepted line is printed either as its extension field alone (`-ext`) or as a report block.

This project models the tool's three parts:

- `text.dfy` (module `Text`): the .NET string operations the program relies on, with
  ordinal semantics.
  - `Contains` is an ordinal substring test.
  - `Split` splits on one character.
  - `new string(c, n)` is `Repeat`.
  - `Replace(".", "")` is `Remove`.
- `hexdump.dfy` (module `HexDump`): the renderer.
  - `Hex` is an imperative method. It reuses one `char` buffer for every line.
  - `GetHex` samples a file and renders it.
  - Both are proved against the reference rendering `Dump`.
  - Lemmas cover the shape of the rendering, its length and the round trip from digits
    back to bytes.
- `signature.dfy` (module `SignatureCheck`): the matcher.
  - The class `FileTypeChecker` keeps the static flag `s_isIterated` as the field
    `isIterated`.
  - Its method `CheckFileSignature` keeps the source's loop and its recursive second
    pass.
  - It is proved equal to the pure definitions `Scan` (one pass) and `Decide` (both
    passes).
  - Lemmas characterise each outcome: found, nothing found, and a throw on a malformed
    line.
- `commandline.dfy` (module `CommandLine`): `Main`.
  - `Dispatch` makes the checks in the source's order.
  - `Run` calls the checker on a fresh `FileTypeChecker`.

The code decides these points:

- Every byte is followed by a space in the dump. The line is padded to
  `3n + (n-1)/8 + n` columns and ends with the newline, where `n` is the number of bytes
  sampled. A signature written as two or more bytes without spaces therefore never
  matches the dump of a readable, non-empty file (`UnspacedSignatureNeverAccepted`). A
  file that exists but cannot be read is matched against the text of the exception
  instead, and that text may hold the path, so such a signature can match there.
- The hex field is looked for anywhere in the dump, not only at its start.
- The initial value "Unknown signature." of the message is never used: whatever is
  printed is the message of a table line whose hex field occurs in the dump
  (`PrintedComesFromTable`). When both passes find nothing, nothing is printed
  (`SilentIff`).
- The description is the third `|`-separated field only. Further fields are ignored.
- A non-empty table line with fewer than three fields throws an uncaught index exception
  when the loop reaches it. This is modelled as `Crashed(line)`.
- Help is shown for any first argument that merely contains `-h`, whether or not such a
  file exists. Only a second argument equal to `-ext` selects extension-only output.
- The checks run in this order: the table exists, an argument is present, `-h`, the
  target exists.
- An empty target is rendered with `bytesPerLine == 0`. `Hex` then divides by zero while
  estimating the line count. `GetHex` catches that exception and returns its message,
  which is the text that gets searched.

## Model

| member | source | states |
|---|---|---|
| Text.ContainsIff | src/FileSigChecker.cs:116 | `Contains(s, p)` holds exactly when `p` occurs at some index of `s` |
| Text.Split | src/FileSigChecker.cs:115-118 | splitting a line on the field separator yields one field more than the line has separators |
| Text.SplitFieldsSeparatorFree | src/FileSigChecker.cs:115-118 | no field produced by `Split` contains the separator |
| Text.JoinSplit | src/FileSigChecker.cs:115-118 | joining the fields of a split with the separator gives the original line back |
| Text.SplitJoin | src/FileSigChecker.cs:115-118 | splitting a join of separator-free fields gives the fields back |
| Text.Repeat | src/FileSigChecker.cs:197 | `new string(c, n)` has length `n` |
| Text.RepeatAt | src/FileSigChecker.cs:197 | every character of `new string(c, n)` is `c` |
| Text.Remove | src/FileSigChecker.cs:111 | `Replace(".", "")` leaves no `.`, shortens the string by the number of dots, and leaves a dot-free string unchanged |
| Text.RemoveOne | src/FileSigChecker.cs:111 | a single character is deleted when it is the dot and kept otherwise |
| Text.RemoveAppend | src/FileSigChecker.cs:111 | removal works piecewise over a concatenation, so with `RemoveOne` the result is the input with exactly its dots deleted and every other character kept in order |
| HexDump.HexValueOfDigit | src/FileSigChecker.cs:175 | each digit of `s_hexChars` decodes back to its index |
| HexDump.Cells | src/FileSigChecker.cs:205-220 | the slots of `n` bytes take `3n` columns |
| HexDump.CellsAt | src/FileSigChecker.cs:214-219 | byte `j` sits in columns `3j` (high nibble digit), `3j+1` (low nibble digit) and `3j+2` (space) |
| HexDump.Chunk | src/FileSigChecker.cs:201-207 | the bytes one line renders are at most `bytesPerLine` |
| HexDump.LineCell | src/FileSigChecker.cs:205-220 | slot `j` of a line holds the two digits of byte `j`, or two spaces past the end of the bytes, then a space; the line is `lineLength` long |
| HexDump.LineTail | src/FileSigChecker.cs:188-197 | after the slots a line holds spaces up to `firstCharColumn + bytesPerLine`, then `Environment.NewLine` |
| HexDump.BufferIsLine | src/FileSigChecker.cs:197-222 | a buffer with blank untouched columns and filled slots is exactly the reference line appended at :222 |
| HexDump.SlotWrite | src/FileSigChecker.cs:207-219 | writing slot `j`'s two characters keeps the blank columns of the buffer blank and the earlier slots `0..j-1` of the same line as they were, and fills slot `j` |
| HexDump.DumpStep | src/FileSigChecker.cs:201-223 | appending a line to the result and advancing `i` by `bytesPerLine` keeps "result so far, then the rest" equal to the whole rendering |
| HexDump.FillSlots | src/FileSigChecker.cs:203-220 | the slot loop turns the reused buffer into the reference line of the bytes from `i`, changing only the buffer |
| HexDump.Hex | src/FileSigChecker.cs:183-226 | `"<null>"` for a null array; `ArgumentOutOfRange` for a negative `bytesPerLine`; `DivideByZero` for `bytesPerLine == 0`; otherwise exactly the reference rendering `Dump` of the array |
| HexDump.GetHex | src/FileSigChecker.cs:151-173 | "" for a missing file, the exception text for a failed read or for an empty file, otherwise the rendering of the first `min(length, 50)` bytes with that many bytes per line |
| HexDump.EmptyDump | src/FileSigChecker.cs:201 | the rendering of no bytes is empty: the chunk loop never runs |
| HexDump.LineCountRoundsUp | src/FileSigChecker.cs:198 | the number of lines is `(length + bytesPerLine - 1) / bytesPerLine`, the byte count divided by `bytesPerLine` rounded up |
| HexDump.LineLength | src/FileSigChecker.cs:193-197 | every line is `lineLength = firstCharColumn + bytesPerLine + NewLine.Length` characters long |
| HexDump.DumpLineCount | src/FileSigChecker.cs:198-223 | the rendering is the number of lines times `lineLength` characters long |
| HexDump.DumpLength | src/FileSigChecker.cs:198-199 | the result has exactly the capacity reserved for it, `expectedLines * lineLength` |
| HexDump.SampleIsOneLine | src/FileSigChecker.cs:160-163 | a non-empty file renders as one line of `3n + (n-1)/8 + n` columns followed by the newline |
| HexDump.ByteRoundTrip | src/FileSigChecker.cs:215-216 | the two digits written for a byte decode back to that byte |
| HexDump.SampleDigits | src/FileSigChecker.cs:160-163 | columns `3j` and `3j+1` of a sample are byte `j`'s digits and decode to it |
| HexDump.SampleSpaces | src/FileSigChecker.cs:160-163 | every other column of a sample before the newline is a space |
| HexDump.Decode | src/FileSigChecker.cs:215-216 | reading one byte from each slot gives one value per sampled byte |
| HexDump.SampleRoundTrip | src/FileSigChecker.cs:151-173 | decoding a sample gives back exactly the first `min(length, 50)` bytes of the file |
| HexDump.SampleBrokenEveryThird | src/FileSigChecker.cs:160-163 | in a sample, column `3j+2` is never a hex digit |
| HexDump.NoHexRun | src/FileSigChecker.cs:116 | a text with a non-digit in every third column contains no run of three or more hex digits |
| HexDump.NoHexRunOfThree | src/FileSigChecker.cs:109-116 | no sample contains three hex digits in a row |
| SignatureCheck.ParseLine | src/FileSigChecker.cs:115-118 | a line yields a hex, an extension and a description field exactly when it has at least two separators, and none of the fields contains a separator |
| SignatureCheck.ParseWrittenLine | src/FileSigChecker.cs:115-118 | a line written as hex, extensions and description (and possibly more fields) joined by separators reads back as its first three fields |
| SignatureCheck.AcceptsAnywhere | src/FileSigChecker.cs:116-120 | a line is accepted when its hex occurs at any offset of the dump and, on the first pass, its extension field contains the target's extension |
| SignatureCheck.UnspacedSignatureNeverAccepted | src/FileSigChecker.cs:109-120 | a signature of three or more hex digits without spaces is never accepted, on either pass, for a readable, non-empty file (the dump of its bytes) |
| SignatureCheck.Scan | src/FileSigChecker.cs:113-132 | a pass returns a line only if it lies in the table, parses to the returned entry and is accepted; it reports a throw only at a non-empty line without three fields |
| SignatureCheck.PassedStep | src/FileSigChecker.cs:113-120 | the lines from `from` to `to` are passed over exactly when line `from` is and the rest are |
| SignatureCheck.ScanFoundIff | src/FileSigChecker.cs:113-132 | a pass stops at line `i` with entry `e` exactly when every earlier line is empty or parsed and rejected, and line `i` parses to `e` and is accepted |
| SignatureCheck.ScanNotFoundIff | src/FileSigChecker.cs:113-132 | a pass finds nothing exactly when every line is empty or has three fields and is rejected |
| SignatureCheck.ScanMalformedIff | src/FileSigChecker.cs:113-118 | a pass throws at line `i` exactly when every earlier line is empty or parsed and rejected, and line `i` is non-empty with fewer than three fields |
| SignatureCheck.EmptyExtensionScansAgree | src/FileSigChecker.cs:111-120 | with an empty target extension, both passes find the same line |
| SignatureCheck.ReportLinesSingle | src/FileSigChecker.cs:122-130 | no line of the report block holds a line feed when the path and fields hold none |
| SignatureCheck.MessageLines | src/FileSigChecker.cs:122-130 | the report block splits back into its seven lines, so every field can be read back from it |
| SignatureCheck.PrintedComesFromTable | src/FileSigChecker.cs:107-135 | anything printed is built from a table line whose hex occurs in the dump, so the initial value "Unknown signature." of the message is never used |
| SignatureCheck.FirstPassWins | src/FileSigChecker.cs:120-139 | a line accepted on the first pass matches the extension and is what is printed; the second pass never runs |
| SignatureCheck.CrashOnlyInFirstPass | src/FileSigChecker.cs:113-139 | the check throws at line `i` exactly when the first pass does, so the second pass never throws |
| SignatureCheck.SilentIff | src/FileSigChecker.cs:113-140 | nothing is printed exactly when every non-empty line has three fields and no hex field occurs in the dump, whatever the extensions |
| SignatureCheck.EmptyExtensionOnePassEnough | src/FileSigChecker.cs:134-140 | with an empty target extension the second pass decides the same as the first |
| SignatureCheck.FileTypeChecker.constructor | src/FileSigChecker.cs:14 | the flag starts cleared |
| SignatureCheck.FileTypeChecker.CheckFileSignature | src/FileSigChecker.cs:105-141 | the outcome is `Decide` on the table, the file's rendering and the dot-free extension, starting from the flag's old value; the flag ends set exactly when it was set or the first pass found nothing |
| CommandLine.Dispatch | src/FileSigChecker.cs:28-73 | a missing table is reported exactly when the table is missing; a missing argument exactly when the table exists and there are no arguments; a file is inspected only when it is the first argument, exists and does not contain `-h`, and then in extension-only mode exactly when the second argument is `-ext` |
| CommandLine.HelpForAnyDashH | src/FileSigChecker.cs:48-52 | help is shown exactly when the first argument contains `-h` |
| CommandLine.OnlyExtSwitchMatters | src/FileSigChecker.cs:41-46 | only a second argument equal to `-ext` changes the outcome; other second arguments and all later arguments are ignored |
| CommandLine.InspectIff | src/FileSigChecker.cs:28-73 | the file is inspected exactly when the table exists, the first argument does not contain `-h` and names an existing file |
| CommandLine.CheckedOnlyExistingFiles | src/FileSigChecker.cs:54-59 | the signature check only ever runs on an existing file; a missing one is reported by its name |
| CommandLine.Run | src/FileSigChecker.cs:18-74 | `Main` prints what `Expected` says, in the source's order of checks, running the signature check with a fresh flag and `-ext` deciding extension-only output |

## Left out

- Console output is a returned value. `Console.WriteLine`'s trailing newline and the red
  foreground of `ColorConsoleWriteLine` are not modelled.
- The help text is the report `Help`; its wording and layout are not modelled.
- File access is a parameter. `File.Exists` and the file contents are given as a function
  from paths to `FileState`, and the table as its list of lines. How `File.ReadAllLines`
  splits the table, and a table that cannot be read, are not modelled.
- The exception messages of the .NET runtime are the parameter `exceptionText`.
- `FileInfo.Extension` is the parameter `extensionOf`; only the removal of dots is
  modelled.
- The table and the target are read a second time by the recursive call. The model
  assumes neither changes in between.
- `stream.Read` is assumed to fill the buffer. A short read, which leaves zero bytes at
  the end of the buffer, is not modelled.
- The `StringBuilder` result is a `string`. The string is the same; the builder's
  capacity appears only as the length proved by `DumpLength`.
- `line.Split('|')` runs three times in the source and once in the model. The results are
  the same.
- `Environment.NewLine` is `"\n"` or `"\r\n"`. The report block's own line breaks are
  line feeds, as they are written in the source file.
- `s_isIterated` is static and never reset. `Run` models a single run of the program,
  with a fresh `FileTypeChecker` whose flag starts cleared.
- HexDump.Hex: the arithmetic is on unbounded integers, not C#'s 32-bit `int`. When the
  magnitude of `bytesPerLine` is about 520 million or more, `lineLength` wraps around.
  The source then throws where the model renders, or throws a different exception than
  the model states. The capacity `expectedLines * lineLength` wraps around as well, for
  a large array with a small `bytesPerLine`. For example, 500,000,000 bytes at one byte
  per line with a `"\n"` newline need 2,500,000,000 characters, so `new StringBuilder`
  throws where the model renders. The only caller passes 0 to 50 bytes per line and at
  most 50 bytes.
