/** The signature matcher: a table of `hex|extensions|description` lines is scanned for
    the first line whose hex field occurs in the rendering of the target file and whose
    extension field mentions the target's extension; when no line qualifies, a second
    pass drops the extension test. */
module SignatureCheck {
  import opened Text
  import opened HexDump

  datatype Option<T> = None | Some(value: T)

  /** One parsed table line. */
  datatype Entry = Entry(hex: string, ext: string, description: string)

  /** The three fields `CheckFileSignature` reads from a table line with `Split('|')`;
      a line with fewer than three fields has no field 2 and is rejected. Fields after
      the third are ignored. */
  function ParseLine(line: string): (e: Option<Entry>)
    ensures e.Some? <==> Count(line, '|') >= 2
    ensures e.Some? ==> '|' !in e.value.hex && '|' !in e.value.ext && '|' !in e.value.description
  {
    var fields := Split(line, '|');
    SplitFieldsSeparatorFree(line, '|');
    if |fields| < 3 then None else Some(Entry(fields[0], fields[1], fields[2]))
  }

  /** A line written as `hex|ext|description`, possibly followed by more fields, parses
      back to its first three fields. */
  lemma ParseWrittenLine(fields: seq<string>)
    requires |fields| >= 3 && forall k :: 0 <= k < |fields| ==> '|' !in fields[k]
    ensures ParseLine(Join(fields, '|')) == Some(Entry(fields[0], fields[1], fields[2]))
  {
    SplitJoin(fields, '|');
  }

  /** The skip test of the loop, negated: the line's hex field occurs somewhere in the
      rendering and, on the first pass, its extension field contains the target's
      extension. */
  predicate Accepts(e: Entry, hexFile: string, nameExt: string, iterated: bool)
  {
    Contains(hexFile, e.hex) && (iterated || Contains(e.ext, nameExt))
  }

  /** The hex field is looked for at every offset of the rendering, not only at its
      start. */
  lemma AcceptsAnywhere(e: Entry, hexFile: string, nameExt: string, iterated: bool)
    ensures Accepts(e, hexFile, nameExt, iterated) <==>
      (exists i :: OccursAt(hexFile, e.hex, i)) && (iterated || Contains(e.ext, nameExt))
  {
    ContainsIff(hexFile, e.hex);
  }

  /** A signature written as three or more hex digits without spaces (two bytes or more)
      is never accepted for a readable, non-empty file: the dump of its bytes puts a
      space after every byte. */
  lemma UnspacedSignatureNeverAccepted(e: Entry, contents: seq<Byte>, nl: string,
                                       exceptionText: HexError -> string, nameExt: string, iterated: bool)
    requires IsNewLine(nl) && |contents| >= 1
    requires |e.hex| >= 3 && forall c :: c in e.hex ==> IsHexDigit(c)
    ensures !Accepts(e, Sampled(Readable(contents), nl, exceptionText), nameExt, iterated)
  {
    NoHexRunOfThree(contents, nl, exceptionText, e.hex);
  }

  /** What one pass over the table ends with. */
  datatype ScanResult = Found(index: nat, entry: Entry) | NotFound | Malformed(index: nat)

  /** One pass of the loop from line `from` on: empty lines are filtered out, a line
      with fewer than three fields throws when its fields are read, and the first
      accepted line ends the pass. */
  function Scan(table: seq<string>, from: nat, hexFile: string, nameExt: string, iterated: bool): (r: ScanResult)
    ensures r.Found? ==>
      from <= r.index < |table| && ParseLine(table[r.index]) == Some(r.entry) &&
      Accepts(r.entry, hexFile, nameExt, iterated)
    ensures r.Malformed? ==>
      from <= r.index < |table| && table[r.index] != "" && ParseLine(table[r.index]).None?
    decreases |table| - from
  {
    if from >= |table| then NotFound
    else if table[from] == "" then Scan(table, from + 1, hexFile, nameExt, iterated)
    else match ParseLine(table[from])
      case None => Malformed(from)
      case Some(e) =>
        if Accepts(e, hexFile, nameExt, iterated) then Found(from, e)
        else Scan(table, from + 1, hexFile, nameExt, iterated)
  }

  /** Line `j` is passed over: it is empty, or it has three fields and is not
      accepted. */
  predicate Skipped(table: seq<string>, j: nat, hexFile: string, nameExt: string, iterated: bool)
    requires j < |table|
  {
    table[j] == "" ||
    (ParseLine(table[j]).Some? && !Accepts(ParseLine(table[j]).value, hexFile, nameExt, iterated))
  }

  /** Every line in `[from, to)` is passed over. */
  ghost predicate Passed(table: seq<string>, from: nat, to: nat, hexFile: string, nameExt: string, iterated: bool)
    requires to <= |table|
  {
    forall j :: from <= j < to ==> Skipped(table, j, hexFile, nameExt, iterated)
  }

  lemma PassedStep(table: seq<string>, from: nat, to: nat, hexFile: string, nameExt: string, iterated: bool)
    requires from < to <= |table|
    ensures Passed(table, from, to, hexFile, nameExt, iterated) <==>
      Skipped(table, from, hexFile, nameExt, iterated) && Passed(table, from + 1, to, hexFile, nameExt, iterated)
  {
  }

  /** A pass finds line `i` exactly when `i` is the first accepted line and no malformed
      line comes before it. */
  lemma {:induction false} ScanFoundIff(table: seq<string>, from: nat, hexFile: string, nameExt: string,
                                        iterated: bool, i: nat, e: Entry)
    ensures Scan(table, from, hexFile, nameExt, iterated) == Found(i, e) <==>
      (from <= i < |table| && Passed(table, from, i, hexFile, nameExt, iterated) &&
       table[i] != "" && ParseLine(table[i]) == Some(e) && Accepts(e, hexFile, nameExt, iterated))
    decreases |table| - from
  {
    if from < |table| {
      if Skipped(table, from, hexFile, nameExt, iterated) {
        ScanFoundIff(table, from + 1, hexFile, nameExt, iterated, i, e);
      }
      if from < i < |table| {
        PassedStep(table, from, i, hexFile, nameExt, iterated);
      }
    }
  }

  /** A pass finds nothing exactly when every non-empty line has three fields and none
      is accepted. */
  lemma {:induction false} ScanNotFoundIff(table: seq<string>, from: nat, hexFile: string, nameExt: string, iterated: bool)
    requires from <= |table|
    ensures Scan(table, from, hexFile, nameExt, iterated) == NotFound <==>
      Passed(table, from, |table|, hexFile, nameExt, iterated)
    decreases |table| - from
  {
    if from < |table| {
      if Skipped(table, from, hexFile, nameExt, iterated) {
        ScanNotFoundIff(table, from + 1, hexFile, nameExt, iterated);
      }
      PassedStep(table, from, |table|, hexFile, nameExt, iterated);
    }
  }

  /** A pass throws at line `i` exactly when `i` is the first line without three fields
      and no accepted line comes before it. */
  lemma {:induction false} ScanMalformedIff(table: seq<string>, from: nat, hexFile: string, nameExt: string,
                                            iterated: bool, i: nat)
    ensures Scan(table, from, hexFile, nameExt, iterated) == Malformed(i) <==>
      (from <= i < |table| && Passed(table, from, i, hexFile, nameExt, iterated) &&
       table[i] != "" && ParseLine(table[i]).None?)
    decreases |table| - from
  {
    if from < |table| {
      if Skipped(table, from, hexFile, nameExt, iterated) {
        ScanMalformedIff(table, from + 1, hexFile, nameExt, iterated, i);
      }
      if from < i < |table| {
        PassedStep(table, from, i, hexFile, nameExt, iterated);
      }
    }
  }

  /** With an empty extension every extension field matches, so both passes agree. */
  lemma {:induction false} EmptyExtensionScansAgree(table: seq<string>, from: nat, hexFile: string)
    ensures Scan(table, from, hexFile, "", false) == Scan(table, from, hexFile, "", true)
    decreases |table| - from
  {
    if from < |table| {
      EmptyExtensionScansAgree(table, from + 1, hexFile);
      match ParseLine(table[from])
      case None =>
      case Some(e) =>
        assert Contains(e.ext, "");
    }
  }

  /** The rule above and below the report block: 61 dashes. */
  const Dashes: string := Repeat('-', 61)

  /** The lines of the report block printed for an accepted line: an empty line, a
      rule ending in a tab, the file path and the three fields, and a closing rule. */
  function ReportLines(e: Entry, filePath: string): seq<string>
  {
    ["", Dashes + "\t", "File:          " + filePath, "Extension(s):  " + e.ext,
     "Hex signature: " + e.hex, "Description:   " + e.description, Dashes]
  }

  /** The text printed for an accepted line: its extension field alone, or the report
      block, its lines separated by line feeds. */
  function Message(e: Entry, filePath: string, extOnly: bool): string
  {
    if extOnly then e.ext else Join(ReportLines(e, filePath), '\n')
  }

  /** No line of the report block holds a line feed when no field does. */
  lemma ReportLinesSingle(e: Entry, filePath: string)
    requires '\n' !in filePath && '\n' !in e.hex && '\n' !in e.ext && '\n' !in e.description
    ensures forall k :: 0 <= k < |ReportLines(e, filePath)| ==> '\n' !in ReportLines(e, filePath)[k]
  {
    var lines := ReportLines(e, filePath);
    forall k | 0 <= k < |Dashes|
      ensures Dashes[k] != '\n'
    {
      RepeatAt('-', 61, k);
    }
    CaptionsSingle();
    forall k | 0 <= k < |lines|
      ensures '\n' !in lines[k]
    {
      if k == 1 {
        FieldLine(Dashes, "\t");
      } else if k == 2 {
        FieldLine("File:          ", filePath);
      } else if k == 3 {
        FieldLine("Extension(s):  ", e.ext);
      } else if k == 4 {
        FieldLine("Hex signature: ", e.hex);
      } else if k == 5 {
        FieldLine("Description:   ", e.description);
      }
    }
  }

  /** The report block splits back into its lines: one per field, so every field can be
      read back from the block when none of them holds a line feed. */
  lemma MessageLines(e: Entry, filePath: string)
    requires '\n' !in filePath && '\n' !in e.hex && '\n' !in e.ext && '\n' !in e.description
    ensures Split(Message(e, filePath, false), '\n') == ReportLines(e, filePath)
  {
    ReportLinesSingle(e, filePath);
    SplitJoin(ReportLines(e, filePath), '\n');
  }

  lemma CaptionsSingle()
    ensures '\n' !in "\t" && '\n' !in "File:          " && '\n' !in "Extension(s):  "
    ensures '\n' !in "Hex signature: " && '\n' !in "Description:   "
  {
  }

  lemma FieldLine(caption: string, field: string)
    requires '\n' !in caption && '\n' !in field
    ensures '\n' !in caption + field
  {
  }

  /** What a call of `CheckFileSignature` does. */
  datatype Outcome =
    | Printed(message: string)   // Console.WriteLine(outMessage)
    | Silent                      // neither pass found a line: nothing is printed
    | Crashed(line: nat)          // the line's missing field threw IndexOutOfRangeException

  /** The outcome of `CheckFileSignature` on a table, a rendering and an extension: a
      found line is printed; a malformed line throws; when the first pass finds nothing,
      the second pass runs with the extension test off. */
  function Decide(table: seq<string>, hexFile: string, filePath: string, nameExt: string,
                  extOnly: bool, iterated: bool): Outcome
    decreases if iterated then 0 else 1
  {
    match Scan(table, 0, hexFile, nameExt, iterated)
    case Found(_, e) => Printed(Message(e, filePath, extOnly))
    case Malformed(i) => Crashed(i)
    case NotFound =>
      if iterated then Silent else Decide(table, hexFile, filePath, nameExt, extOnly, true)
  }

  /** Whatever is printed is the message of a table line whose hex field occurs in the
      rendering; the initial value "Unknown signature." of the message is never used. */
  lemma PrintedComesFromTable(table: seq<string>, hexFile: string, filePath: string, nameExt: string,
                              extOnly: bool, iterated: bool, m: string)
    requires Decide(table, hexFile, filePath, nameExt, extOnly, iterated) == Printed(m)
    ensures exists i, e ::
      0 <= i < |table| && ParseLine(table[i]) == Some(e) &&
      Contains(hexFile, e.hex) && m == Message(e, filePath, extOnly)
  {
    var r := Scan(table, 0, hexFile, nameExt, iterated);
    if r.Found? {
      assert 0 <= r.index < |table| && ParseLine(table[r.index]) == Some(r.entry);
    } else {
      var r2 := Scan(table, 0, hexFile, nameExt, true);
      assert 0 <= r2.index < |table| && ParseLine(table[r2.index]) == Some(r2.entry);
    }
  }

  /** A line accepted on the first pass wins over any line the second pass would find:
      the second pass runs only when the first finds nothing. */
  lemma FirstPassWins(table: seq<string>, hexFile: string, filePath: string, nameExt: string,
                      extOnly: bool, i: nat, e: Entry)
    requires Scan(table, 0, hexFile, nameExt, false) == Found(i, e)
    ensures Contains(e.ext, nameExt)
    ensures Decide(table, hexFile, filePath, nameExt, extOnly, false) == Printed(Message(e, filePath, extOnly))
  {
  }

  /** The program throws exactly when the first pass reaches a line without three
      fields: a first pass that finds nothing has checked every line, so the second
      pass cannot throw. */
  lemma {:induction false} CrashOnlyInFirstPass(table: seq<string>, hexFile: string, filePath: string,
                                                nameExt: string, extOnly: bool, i: nat)
    ensures Decide(table, hexFile, filePath, nameExt, extOnly, false) == Crashed(i) <==>
      Scan(table, 0, hexFile, nameExt, false) == Malformed(i)
  {
    if Scan(table, 0, hexFile, nameExt, false) == NotFound {
      ScanNotFoundIff(table, 0, hexFile, nameExt, false);
      if i < |table| {
        assert Skipped(table, i, hexFile, nameExt, false);
      }
      ScanMalformedIff(table, 0, hexFile, nameExt, true, i);
    }
  }

  /** Nothing is printed exactly when every non-empty line has three fields and no
      line's hex field occurs in the rendering, whatever the extensions say. */
  lemma {:induction false} SilentIff(table: seq<string>, hexFile: string, filePath: string,
                                     nameExt: string, extOnly: bool)
    ensures Decide(table, hexFile, filePath, nameExt, extOnly, false) == Silent <==>
      forall j :: 0 <= j < |table| && table[j] != "" ==>
        ParseLine(table[j]).Some? && !Contains(hexFile, ParseLine(table[j]).value.hex)
  {
    ScanNotFoundIff(table, 0, hexFile, nameExt, false);
    ScanNotFoundIff(table, 0, hexFile, nameExt, true);
    forall j | 0 <= j < |table| && Skipped(table, j, hexFile, nameExt, true)
      ensures Skipped(table, j, hexFile, nameExt, false)
    {
    }
    forall j | 0 <= j < |table|
      ensures Skipped(table, j, hexFile, nameExt, true) <==>
        (table[j] != "" ==> ParseLine(table[j]).Some? && !Contains(hexFile, ParseLine(table[j]).value.hex))
    {
    }
  }

  /** With an empty target extension the second pass repeats the first. */
  lemma EmptyExtensionOnePassEnough(table: seq<string>, hexFile: string, filePath: string, extOnly: bool)
    ensures Decide(table, hexFile, filePath, "", extOnly, false) == Decide(table, hexFile, filePath, "", extOnly, true)
  {
    EmptyExtensionScansAgree(table, 0, hexFile);
  }

  /** `FileTypeChecker`, whose static flag `s_isIterated` records that the second
      pass has started. */
  class FileTypeChecker {
    var isIterated: bool

    constructor()
      ensures !isIterated
    {
      isIterated := false;
    }

    /** `CheckFileSignature(extFileName, filePath, extOnly)`: `table` is the content of
        the signature table, `target` the file at `filePath` and `extension` the
        `FileInfo.Extension` of that path. */
    method CheckFileSignature(table: seq<string>, target: FileState, filePath: string, extension: string,
                              extOnly: bool, nl: string, exceptionText: HexError -> string)
      returns (outcome: Outcome)
      requires IsNewLine(nl)
      modifies this
      ensures outcome == Decide(table, Sampled(target, nl, exceptionText), filePath, Remove(extension, '.'),
                                extOnly, old(isIterated))
      ensures isIterated == (old(isIterated) ||
        Scan(table, 0, Sampled(target, nl, exceptionText), Remove(extension, '.'), false) == NotFound)
      decreases if isIterated then 0 else 1
    {
      var outMessage := "Unknown signature.";
      var extLines := table;
      var hexFile := GetHex(target, nl, exceptionText);
      var nameExt := Remove(extension, '.');
      var isExtFound := false;
      var k := 0;
      while k < |extLines|
        invariant 0 <= k <= |extLines|
        invariant isIterated == old(isIterated)
        invariant Scan(extLines, k, hexFile, nameExt, isIterated) == Scan(extLines, 0, hexFile, nameExt, isIterated)
        invariant !isExtFound
      {
        var line := extLines[k];
        if line == "" {
          k := k + 1;
          continue;
        }
        var fields := Split(line, '|');
        var hex := fields[0];
        var check := Contains(hexFile, hex);
        if |fields| < 3 {
          // field 1 or field 2 is out of range
          return Crashed(k);
        }
        var ext := fields[1];
        var description := fields[2];
        if !check || (!isIterated && !Contains(ext, nameExt)) {
          k := k + 1;
          continue;
        }
        isExtFound := true;
        outMessage := Message(Entry(hex, ext, description), filePath, extOnly);
        break;
      }
      if isExtFound {
        outcome := Printed(outMessage);
      } else if !isIterated {
        isIterated := true;
        outcome := CheckFileSignature(table, target, filePath, extension, extOnly, nl, exceptionText);
      } else {
        outcome := Silent;
      }
    }
  }
}
