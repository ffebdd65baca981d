// The line-based import formats as parsers on a whole byte string.
module Lines {
  import opened Bytes
  import opened Grammar
  import Decimal

  const CARRIAGE_RETURN: byte := 13

  datatype ImportMode = KeyValue | LineValue | LineNumber

  datatype ImportError = LineTooLarge | MissingTab | EmptyImportKey

  datatype ImportRecord = ImportRecord(key: bytes, value: bytes, line: nat)

  datatype LineStep = LineEnd | LineBad | Line(content: bytes, used: nat)

  datatype ImportStep = ImportEnd | ImportBad(error: ImportError) | ImportItem(key: bytes, value: bytes, used: nat)

  datatype ImportStream = ImportStream(records: seq<ImportRecord>, error: Option<ImportError>)

  function TrimReturn(s: bytes): bytes {
    if s != [] && s[|s| - 1] == CARRIAGE_RETURN then s[..|s| - 1] else s
  }

  // The next line without its terminator. A line is accepted exactly when what
  // remains of it after trimming is within the limit.
  function NextLine(s: bytes): (r: LineStep)
    ensures r == LineEnd <==> s == []
    ensures r.Line? ==> 0 < r.used <= |s| && |r.content| <= MAX_RECORD_BYTES
  {
    if s == [] then LineEnd
    else
      var i := IndexOf(s, NEWLINE);
      var content := TrimReturn(s[..i]);
      if |content| > MAX_RECORD_BYTES then LineBad else Line(content, if i < |s| then i + 1 else i)
  }

  datatype KeyValueLine = Pair(key: bytes, value: bytes) | BadLine(error: ImportError)

  function ParseKV(line: bytes): KeyValueLine {
    var i := IndexOf(line, TAB);
    if i == |line| then BadLine(MissingTab)
    else if i == 0 then BadLine(EmptyImportKey)
    else Pair(line[..i], line[i + 1..])
  }

  function ParseLine(mode: ImportMode, line: bytes, number: nat): (r: KeyValueLine)
    ensures r.Pair? ==> r.key != []
  {
    Decimal.DigitsPrint(number);
    match mode
    case KeyValue => ParseKV(line)
    case LineValue => if line == [] then BadLine(EmptyImportKey) else Pair(line, line)
    case LineNumber => Pair(Decimal.Print(number), line)
  }

  function ImportStepOf(mode: ImportMode, s: bytes, number: nat): (r: ImportStep)
    ensures r.ImportItem? ==> 0 < r.used <= |s| && r.key != []
  {
    match NextLine(s)
    case LineEnd => ImportEnd
    case LineBad => ImportBad(LineTooLarge)
    case Line(content, used) =>
      match ParseLine(mode, content, number)
      case BadLine(e) => ImportBad(e)
      case Pair(key, value) => ImportItem(key, value, used)
  }

  function ParseImport(mode: ImportMode, s: bytes, line: nat): ImportStream
    decreases |s|
  {
    match ImportStepOf(mode, s, line + 1)
    case ImportEnd => ImportStream([], None)
    case ImportBad(e) => ImportStream([], Some(e))
    case ImportItem(key, value, used) =>
      var rest := ParseImport(mode, s[used..], line + 1);
      ImportStream([ImportRecord(key, value, line + 1)] + rest.records, rest.error)
  }

  ghost predicate NonemptyKeys(r: seq<ImportRecord>) {
    forall i :: 0 <= i < |r| ==> r[i].key != []
  }

  // Empty keys never reach an importer.
  lemma {:induction false} ImportKeysNonempty(mode: ImportMode, s: bytes, line: nat)
    ensures NonemptyKeys(ParseImport(mode, s, line).records)
    decreases |s|
  {
    hide ImportStepOf;
    var step := ImportStepOf(mode, s, line + 1);
    if step.ImportItem? {
      ImportKeysNonempty(mode, s[step.used..], line + 1);
    }
  }

  // Line numbers never collide as keys.
  lemma PrintInjective(m: nat, n: nat)
    requires Decimal.Print(m) == Decimal.Print(n)
    ensures m == n
  {
    Decimal.DigitsPrint(m);
    Decimal.DigitsPrint(n);
  }

  // ---- what lines mean, in the bytes on the wire ----

  predicate EndsInReturn(s: bytes) {
    s != [] && s[|s| - 1] == 13
  }

  function LimitedLine(content: bytes, used: nat): LineStep {
    if |content| > LIMIT then LineBad else Line(content, used)
  }

  // A line ends at "\r\n" or at "\n", or without either at the end of the
  // input, where a carriage return is cut as well.
  lemma LineMeans(content: bytes, rest: bytes)
    requires 10 !in content
    ensures NextLine(content + [13, 10] + rest) == LimitedLine(content, |content| + 2)
    ensures !EndsInReturn(content) ==> NextLine(content + [10] + rest) == LimitedLine(content, |content| + 1)
    ensures NextLine(content + [13]) == LimitedLine(content, |content| + 1)
    ensures content != [] && !EndsInReturn(content) ==> NextLine(content) == LimitedLine(content, |content|)
  {
    hide IndexOf;
    var returned := content + [13];
    assert content + [13, 10] + rest == returned + [10] + rest;
    assert returned[..|content|] == content;
    LineFront(returned, rest);
    LineFront(content, rest);
    IndexOfConcat(returned, NEWLINE, []);
    IndexOfConcat(content, NEWLINE, []);
    assert returned[..|returned|] == returned && content[..|content|] == content;
  }

  lemma LineFront(raw: bytes, rest: bytes)
    requires 10 !in raw
    ensures NextLine(raw + [10] + rest) == LimitedLine(TrimReturn(raw), |raw| + 1)
  {
    hide IndexOf, TrimReturn;
    IndexOfConcat(raw, NEWLINE, rest);
    assert (raw + [10] + rest)[..|raw|] == raw;
  }

  // The first tab separates; a line without one, or that begins with it, is refused.
  lemma KVMeans(key: bytes, value: bytes)
    requires 9 !in key
    ensures ParseKV(key + [9] + value) == if key == [] then BadLine(EmptyImportKey) else Pair(key, value)
    ensures ParseKV(key) == BadLine(MissingTab)
  {
    hide IndexOf;
    var line := key + [9] + value;
    IndexOfConcat(key, TAB, value);
    assert line[..|key|] == key && line[|key| + 1..] == value;
  }

  // What the import formats make of a whole input line ended by "\r\n".
  lemma ImportLineMeans(content: bytes, rest: bytes, number: nat)
    requires 10 !in content && |content| <= LIMIT
    ensures var s := content + [13, 10] + rest;
            ImportStepOf(LineValue, s, number)
            == (if content == [] then ImportBad(EmptyImportKey) else ImportItem(content, content, |content| + 2))
            && ImportStepOf(LineNumber, s, number) == ImportItem(Decimal.Print(number), content, |content| + 2)
            && (9 !in content ==> ImportStepOf(KeyValue, s, number) == ImportBad(MissingTab))
  {
    hide NextLine, ParseKV;
    LineMeans(content, rest);
    if 9 !in content {
      KVMeans(content, []);
    }
  }

  lemma ImportKVMeans(key: bytes, value: bytes, rest: bytes, number: nat)
    requires 9 !in key && 10 !in key && 10 !in value && |key| + 1 + |value| <= LIMIT
    ensures var s := key + [9] + value + [13, 10] + rest;
            ImportStepOf(KeyValue, s, number)
            == if key == [] then ImportBad(EmptyImportKey) else ImportItem(key, value, |key| + |value| + 3)
  {
    hide NextLine, ParseKV;
    LineMeans(key + [9] + value, rest);
    KVMeans(key, value);
  }

  // A line too long is refused in every mode.
  lemma LongLine(mode: ImportMode, content: bytes, rest: bytes, number: nat)
    requires 10 !in content && |content| > LIMIT
    ensures ImportStepOf(mode, content + [13, 10] + rest, number) == ImportBad(LineTooLarge)
  {
    hide NextLine;
    LineMeans(content, rest);
  }

  ghost predicate Numbered(mode: ImportMode, rs: seq<ImportRecord>, line: nat) {
    forall i :: 0 <= i < |rs| ==>
      rs[i].line == line + i + 1 && (mode == LineNumber ==> rs[i].key == Decimal.Print(line + i + 1))
  }

  // Lines are numbered consecutively, and keys by number are those numbers.
  lemma {:induction false} ImportNumbered(mode: ImportMode, s: bytes, line: nat)
    ensures Numbered(mode, ParseImport(mode, s, line).records, line)
    decreases |s|
  {
    hide NextLine, Decimal.Print;
    var step := ImportStepOf(mode, s, line + 1);
    if step.ImportItem? {
      var rest := ParseImport(mode, s[step.used..], line + 1).records;
      ImportNumbered(mode, s[step.used..], line + 1);
      NumberedCons(mode, ImportRecord(step.key, step.value, line + 1), rest, line);
    }
  }

  lemma NumberedCons(mode: ImportMode, r: ImportRecord, rest: seq<ImportRecord>, line: nat)
    requires Numbered(mode, rest, line + 1)
    requires r.line == line + 1 && (mode == LineNumber ==> r.key == Decimal.Print(line + 1))
    ensures Numbered(mode, [r] + rest, line)
  {
    hide Decimal.Print;
    var rs := [r] + rest;
    forall i | 0 < i < |rs|
      ensures rs[i].line == line + i + 1 && (mode == LineNumber ==> rs[i].key == Decimal.Print(line + i + 1))
    {
      assert rs[i] == rest[i - 1];
      assert line + 1 + (i - 1) + 1 == line + i + 1;
    }
  }

  // ---- key-value output read back ----

  // What scan prints for a record by default.
  function PrintKV(key: bytes, value: bytes): bytes {
    key + [9] + value + [10]
  }

  predicate SurvivesKV(key: bytes, value: bytes) {
    key != [] && 9 !in key && 10 !in key && 10 !in value && !EndsInReturn(value) && |key| + 1 + |value| <= LIMIT
  }

  // Tab-separated output is not lossless: importing it gives the record back
  // exactly under these conditions, whatever follows.
  lemma KVRoundTrip(key: bytes, value: bytes, rest: bytes, number: nat)
    ensures ImportStepOf(KeyValue, PrintKV(key, value) + rest, number) == ImportItem(key, value, |PrintKV(key, value)|)
            <==> SurvivesKV(key, value)
  {
    hide IndexOf;
    if SurvivesKV(key, value) {
      KVSurvives(key, value, rest, number);
    }
    if ImportStepOf(KeyValue, PrintKV(key, value) + rest, number) == ImportItem(key, value, |PrintKV(key, value)|) {
      KVNeeds(key, value, rest, number);
    }
  }

  // A value printed on a line of its own comes back as that value, under itself
  // or under its line number, exactly under these conditions.
  lemma LineRoundTrip(value: bytes, rest: bytes, number: nat)
    ensures var fits := 10 !in value && !EndsInReturn(value) && |value| <= LIMIT;
            var s := value + [10] + rest;
            (ImportStepOf(LineNumber, s, number) == ImportItem(Decimal.Print(number), value, |value| + 1) <==> fits)
            && (ImportStepOf(LineValue, s, number) == ImportItem(value, value, |value| + 1) <==> fits && value != [])
  {
    hide IndexOf;
    var s := value + [NEWLINE] + rest;
    IndexOfAtMost(s, NEWLINE, |value|);
    if NEWLINE !in value {
      IndexOfConcat(value, NEWLINE, rest);
      assert s[..|value|] == value;
    } else {
      var j :| 0 <= j < |value| && value[j] == NEWLINE;
      IndexOfAtMost(s, NEWLINE, j);
    }
  }

  lemma KVSurvives(key: bytes, value: bytes, rest: bytes, number: nat)
    requires SurvivesKV(key, value)
    ensures ImportStepOf(KeyValue, PrintKV(key, value) + rest, number) == ImportItem(key, value, |PrintKV(key, value)|)
  {
    hide IndexOf;
    var line := key + [TAB] + value;
    var s := PrintKV(key, value) + rest;
    assert s == line + [NEWLINE] + rest;
    IndexOfConcat(line, NEWLINE, rest);
    IndexOfConcat(key, TAB, value);
    assert s[..|line|] == line;
    assert line[|line| - 1] == if value == [] then TAB else value[|value| - 1];
    assert line[..|key|] == key && line[|key| + 1..] == value;
  }

  lemma KVNeeds(key: bytes, value: bytes, rest: bytes, number: nat)
    requires ImportStepOf(KeyValue, PrintKV(key, value) + rest, number) == ImportItem(key, value, |PrintKV(key, value)|)
    ensures SurvivesKV(key, value)
  {
    hide IndexOf, NextLine, ParseKV, TrimReturn;
    var line := key + [9] + value;
    var s := PrintKV(key, value) + rest;
    assert s == line + [10] + rest;
    if 10 in line {
      NewlineInside(line, rest);
    } else {
      LineFront(line, rest);
      KVSound(TrimReturn(line));
      TrimShortens(line);
      assert line[|line| - 1] == if value == [] then 9 else value[|value| - 1];
    }
  }

  lemma NewlineInside(line: bytes, rest: bytes)
    requires 10 in line
    ensures var r := NextLine(line + [10] + rest); r.Line? ==> r.used <= |line|
  {
    hide IndexOf, TrimReturn;
    var s := line + [10] + rest;
    var j :| 0 <= j < |line| && line[j] == 10;
    IndexOfAtMost(s, NEWLINE, j);
  }

  lemma TrimShortens(s: bytes)
    ensures |TrimReturn(s)| == if EndsInReturn(s) then |s| - 1 else |s|
    ensures !EndsInReturn(s) ==> TrimReturn(s) == s
  {
  }

  lemma KVSound(line: bytes)
    requires ParseKV(line).Pair?
    ensures var p := ParseKV(line); p.key != [] && 9 !in p.key && line == p.key + [9] + p.value
  {
    hide IndexOf;
    var i := IndexOf(line, TAB);
    assert line == line[..i] + [line[i]] + line[i + 1..];
  }
}
