// The streaming decoders: one record per call, over a refilling buffer, with
// scratch buffers reused from record to record. Each call must deliver exactly
// what the pure parser finds at the front of the unread bytes.
module Decoders {
  import opened Bytes
  import opened Grammar
  import opened Reading
  import opened Lines
  import Decimal

  const BUFFER_SIZE := 65_536

  datatype Delivery = Done | Failed(error: DecodeError) | Delivered(rec: ApplyRecord)

  // A destination for one payload: reused scratch space, or an array of its own
  // when the scratch space is too small.
  method SizedBuffer(scratch: array<byte>, size: nat) returns (b: array<byte>)
    ensures if size <= scratch.Length then b == scratch else fresh(b) && b.Length == size
    ensures size <= b.Length
  {
    if size <= scratch.Length {
      return scratch;
    }
    b := new byte[size](_ => 0);
  }

  class ApplyReader {
    const format: Format
    const br: BufReader
    const keyBuf: array<byte>
    const valueBuf: array<byte>
    var line: nat
    var total: nat

    ghost predicate Valid()
      reads this, br
    {
      br.Valid() && keyBuf != br.buf && valueBuf != br.buf && keyBuf != valueBuf
    }

    constructor (format: Format, br: BufReader)
      requires br.Valid()
      ensures Valid() && this.format == format && this.br == br
      ensures line == 0 && total == 0 && fresh(keyBuf) && fresh(valueBuf)
    {
      this.format, this.br := format, br;
      keyBuf := new byte[BUFFER_SIZE](_ => 0);
      valueBuf := new byte[BUFFER_SIZE](_ => 0);
      line, total := 0, 0;
    }

    // One record off the front of the unread input, or the reason there is none.
    method Next() returns (d: Delivery)
      requires Valid()
      modifies this, br, br.buf, keyBuf, valueBuf
      ensures Valid()
      ensures Matches(StepOf(format, old(br.Remaining())), old(br.Remaining()), old(line), old(total), d,
                      br.Remaining())
      ensures d.Delivered? ==> line == d.rec.line && total == d.rec.bytes
    {
      match format
      case Kcat => d := NextKcat();
      case Frame => d := NextFrame();
    }

    method NextFrame() returns (d: Delivery)
      requires Valid()
      modifies this, br, br.buf, valueBuf
      ensures Valid()
      ensures Matches(FrameStep(old(br.Remaining())), old(br.Remaining()), old(line), old(total), d, br.Remaining())
      ensures d.Delivered? ==> line == d.rec.line && total == d.rec.bytes
    {
      hide FrameBody, ParseHeader, IndexOf, BufReader.Remaining;
      ghost var input := br.Remaining();
      var header, n, err := br.ReadUntil(NEWLINE, MAX_RECORD_BYTES);
      if err == Some(EOF) && br.Size(header) == 0 {
        return Done;
      }
      line, total := line + 1, total + n;
      if err == Some(TooLarge) {
        return Failed(RecordTooLarge);
      }
      if err.Some? {
        return Failed(TruncatedHeader);
      }
      match ParseHeader(br.Bytes(header)) {
        case BadHeader(e) => return Failed(e);
        case Header(delete, keyLen, valueLen) =>
          d := ReadBody(delete, keyLen, valueLen, input, n);
      }
    }

    // The body of a frame goes to one buffer; key and value are its two parts.
    method ReadBody(delete: bool, keyLen: nat, valueLen: nat, ghost input: bytes,
        ghost before: nat) returns (d: Delivery)
      requires Valid() && before <= |input| && br.Remaining() == input[before..] && before <= total && line > 0
      modifies this`total, br, br.buf, valueBuf
      ensures Valid()
      ensures Matches(FrameBody(input[before..], delete, keyLen, valueLen, before), input, line - 1,
                      old(total) - before, d, br.Remaining())
      ensures d.Delivered? ==> line == d.rec.line && total == d.rec.bytes
    {
      hide BufReader.Remaining;
      var body := SizedBuffer(valueBuf, keyLen + valueLen);
      var n, ok := br.ReadFull(body, keyLen + valueLen);
      total := total + n;
      if !ok {
        return Failed(TruncatedBody);
      }
      BodyParts(input[before..], keyLen, valueLen, body[..keyLen + valueLen]);
      assert body[..keyLen] == body[..keyLen + valueLen][..keyLen];
      assert body[keyLen..keyLen + valueLen] == body[..keyLen + valueLen][keyLen..];
      return Delivered(ApplyRecord(delete, body[..keyLen], body[keyLen..keyLen + valueLen], line, total));
    }

    method NextKcat() returns (d: Delivery)
      requires Valid()
      modifies this, br, br.buf, keyBuf, valueBuf
      ensures Valid()
      ensures Matches(KcatStep(old(br.Remaining())), old(br.Remaining()), old(line), old(total), d, br.Remaining())
      ensures d.Delivered? ==> line == d.rec.line && total == d.rec.bytes
    {
      hide KcatAfterKey, IndexOf, BufReader.Remaining;
      ghost var input := br.Remaining();
      var key, n, err := br.ReadUntil(TAB, MAX_RECORD_BYTES);
      total := total + n;
      if err == Some(EOF) && br.Size(key) == 0 {
        return Done;
      }
      line := line + 1;
      if err == Some(TooLarge) {
        return Failed(RecordTooLarge);
      }
      if err.Some? {
        return Failed(MissingKeySeparator);
      }
      if br.Size(key) == 0 {
        return Failed(EmptyKey);
      }
      // The view would not survive the next read.
      var kept, keyLen := KeepKey(br.Bytes(key));
      d := AfterKey(kept, keyLen, input);
    }

    method KeepKey(key: bytes) returns (kept: array<byte>, keyLen: nat)
      requires Valid()
      modifies keyBuf
      ensures (kept == keyBuf || fresh(kept)) && keyLen == |key| <= kept.Length && kept[..keyLen] == key
    {
      keyLen := |key|;
      kept := SizedBuffer(keyBuf, keyLen);
      forall i | 0 <= i < keyLen {
        kept[i] := key[i];
      }
    }

    method AfterKey(kept: array<byte>, keyLen: nat, ghost input: bytes) returns (d: Delivery)
      requires Valid() && keyLen < |input| && br.Remaining() == input[keyLen + 1..]
      requires keyLen <= kept.Length && kept[..keyLen] == input[..keyLen]
      requires kept != br.buf && kept != valueBuf && keyLen + 1 <= total && line > 0
      modifies this`total, br, br.buf, valueBuf
      ensures Valid()
      ensures Matches(KcatAfterKey(input, keyLen), input, line - 1, old(total) - keyLen - 1, d, br.Remaining())
      ensures d.Delivered? ==> line == d.rec.line && total == d.rec.bytes
    {
      hide KcatPayload, Decimal.Parse, IndexOf, BufReader.Remaining;
      ghost var rest := br.Remaining();
      var sizeText, n, err := br.ReadUntil(TAB, MAX_RECORD_BYTES);
      total := total + n;
      if err == Some(TooLarge) {
        return Failed(RecordTooLarge);
      }
      if err.Some? {
        return Failed(MissingLengthSeparator);
      }
      var size := Decimal.Parse(br.Bytes(sizeText));
      if size.None? || size.value < -1 {
        return Failed(InvalidLength);
      }
      if size.value > MAX_RECORD_BYTES {
        return Failed(RecordTooLarge);
      }
      ghost var before := keyLen + 1 + n;
      assert rest[n..] == input[before..];
      d := ReadPayload(kept, keyLen, size.value, input, before);
    }

    // The payload of a put; a delete has none.
    method ReadValue(size: int) returns (ok: bool, value: bytes)
      requires Valid() && -1 <= size
      modifies this`total, br, br.buf, valueBuf
      ensures Valid()
      ensures var n := if size < 0 then 0 else size;
              var input := old(br.Remaining());
              ok == (|input| >= n)
              && (ok ==> value == input[..n] && br.Remaining() == input[n..] && total == old(total) + n)
    {
      hide BufReader.Remaining;
      if size < 0 {
        assert br.Remaining()[0..] == br.Remaining();
        return true, [];
      }
      var dst := SizedBuffer(valueBuf, size);
      var n, full := br.ReadFull(dst, size);
      total := total + n;
      if !full {
        return false, [];
      }
      return true, dst[..size];
    }

    // Reads the payload and the record's newline; the key is still what it was
    // when it was kept.
    method ReadPayload(kept: array<byte>, keyLen: nat, size: int, ghost input: bytes,
        ghost before: nat) returns (d: Delivery)
      requires Valid() && before <= |input| && br.Remaining() == input[before..]
      requires keyLen <= kept.Length && -1 <= size
      requires kept != br.buf && kept != valueBuf && before <= total && line > 0
      modifies this`total, br, br.buf, valueBuf
      ensures Valid()
      ensures Matches(KcatPayload(old(kept[..keyLen]), size, input[before..], before), input, line - 1,
                      old(total) - before, d, br.Remaining())
      ensures d.Delivered? ==> line == d.rec.line && total == d.rec.bytes
    {
      hide BufReader.Remaining, KcatPayload;
      ghost var key := kept[..keyLen];
      KcatPayloadCases(key, size, input, before);
      var ok, value := ReadValue(size);
      if !ok {
        return Failed(TruncatedPayload);
      }
      var trailer := br.ReadByte();
      if trailer.Some? {
        total := total + 1;
        if trailer.value != NEWLINE {
          return Failed(MissingNewline);
        }
      }
      return Delivered(ApplyRecord(size == -1, kept[..keyLen], value, line, total));
    }
  }

  // The four ends of a kcat record, in terms of what is left to read.
  lemma KcatPayloadCases(key: bytes, size: int, input: bytes, before: nat)
    requires before <= |input| && -1 <= size
    ensures var n := if size < 0 then 0 else size;
            var payload := input[before..];
            var step := KcatPayload(key, size, payload, before);
            if |payload| < n then step == Bad(TruncatedPayload)
            else if payload[n..] == [] then
              step == Item(size == -1, key, payload[..n], before + n) && input[before + n..] == []
            else if payload[n..][0] != NEWLINE then step == Bad(MissingNewline)
            else step == Item(size == -1, key, payload[..n], before + n + 1)
                 && input[before + n + 1..] == payload[n..][1..]
  {
    var n := if size < 0 then 0 else size;
    if |input[before..]| == n {
      assert input[before..][..n] == input[before..];
    }
  }

  datatype LineDelivery = NoLine | LineFailed | Delivers(content: bytes)

  class LineReader {
    const br: BufReader
    var line: nat

    constructor (br: BufReader)
      ensures this.br == br && line == 0
    {
      this.br, line := br, 0;
    }

    // The limit for the raw line leaves room for the carriage return.
    method Next() returns (d: LineDelivery)
      requires br.Valid()
      modifies this, br, br.buf
      ensures br.Valid()
      ensures match NextLine(old(br.Remaining()))
              case LineEnd => d == NoLine
              case LineBad => d == LineFailed
              case Line(content, used) =>
                d == Delivers(content) && br.Remaining() == old(br.Remaining())[used..] && line == old(line) + 1
    {
      hide IndexOf, BufReader.Remaining;
      ghost var input := br.Remaining();
      var out, n, err := br.ReadUntil(NEWLINE, MAX_RECORD_BYTES + 1);
      if err == Some(EOF) && br.Size(out) == 0 {
        return NoLine;
      }
      if err == Some(TooLarge) {
        return LineFailed;
      }
      line := line + 1;
      var content := TrimReturn(br.Bytes(out));
      if |content| > MAX_RECORD_BYTES {
        return LineFailed;
      }
      assert err == Some(EOF) ==> input[n..] == [];
      return Delivers(content);
    }
  }

  datatype ImportDelivery = ImportDone | ImportFailed(error: ImportError) | Imported(rec: ImportRecord)

  class ImportReader {
    const mode: ImportMode
    const lines: LineReader

    constructor (mode: ImportMode, lines: LineReader)
      ensures this.mode == mode && this.lines == lines
    {
      this.mode, this.lines := mode, lines;
    }

    method Next() returns (d: ImportDelivery)
      requires lines.br.Valid()
      modifies lines, lines.br, lines.br.buf
      ensures lines.br.Valid()
      ensures match ImportStepOf(mode, old(lines.br.Remaining()), old(lines.line) + 1)
              case ImportEnd => d == ImportDone
              case ImportBad(e) => d == ImportFailed(e)
              case ImportItem(key, value, used) =>
                d == Imported(ImportRecord(key, value, lines.line)) && lines.line == old(lines.line) + 1
                && lines.br.Remaining() == old(lines.br.Remaining())[used..]
    {
      hide NextLine, ParseLine, BufReader.Remaining;
      var line := lines.Next();
      match line {
        case NoLine => return ImportDone;
        case LineFailed => return ImportFailed(LineTooLarge);
        case Delivers(content) =>
          match ParseLine(mode, content, lines.line) {
            case BadLine(e) => return ImportFailed(e);
            case Pair(key, value) => return Imported(ImportRecord(key, value, lines.line));
          }
      }
    }
  }

  // Delivery d is what parsing `input` at its front means, and `rest` is what
  // the record left unread.
  ghost predicate Matches(step: Step, input: bytes, line: nat, total: nat, d: Delivery, rest: bytes)
    requires step.Item? ==> step.used <= |input|
  {
    match step
    case End => d == Done
    case Bad(e) => d == Failed(e)
    case Item(delete, key, value, used) =>
      d == Delivered(ApplyRecord(delete, key, value, line + 1, total + used)) && rest == input[used..]
  }

  lemma BodyParts(body: bytes, keyLen: nat, valueLen: nat, read: bytes)
    requires keyLen + valueLen <= |body| && read == body[..keyLen + valueLen]
    ensures read[..keyLen] == body[..keyLen] && read[keyLen..] == body[keyLen..keyLen + valueLen]
  {
  }
}
