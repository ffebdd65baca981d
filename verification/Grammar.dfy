// The two apply formats as parsers on a whole byte string, and the frame
// printer. Nothing here knows how the bytes arrive.
module Grammar {
  import opened Bytes
  import Decimal

  const MAX_RECORD_BYTES := 67_108_864
  const TAB: byte := 9
  const NEWLINE: byte := 10
  const SPACE: byte := 32
  const OP_PUT: byte := 80
  const OP_DELETE: byte := 68

  datatype Format = Kcat | Frame

  datatype DecodeError =
    | RecordTooLarge
    | MissingKeySeparator
    | EmptyKey
    | MissingLengthSeparator
    | InvalidLength
    | TruncatedPayload
    | MissingNewline
    | TruncatedHeader
    | EmptyHeader
    | UnknownOperation
    | InvalidPutHeader
    | InvalidDeleteHeader
    | TruncatedBody

  datatype ApplyRecord = ApplyRecord(delete: bool, key: bytes, value: bytes, line: nat, bytes: nat)

  // What stands at the front of a byte string: its end, a malformed record, or
  // a record that takes up the first `used` bytes.
  datatype Step = End | Bad(error: DecodeError) | Item(delete: bool, key: bytes, value: bytes, used: nat)

  // The position of the first d, or the length if there is none.
  function IndexOf(s: bytes, d: byte): (i: nat)
    ensures i <= |s| && d !in s[..i] && (i < |s| ==> s[i] == d)
  {
    if s == [] || s[0] == d then 0 else
      var i := IndexOf(s[1..], d);
      assert s[..i + 1] == [s[0]] + s[1..][..i];
      i + 1
  }

  lemma {:induction false} IndexOfConcat(a: bytes, d: byte, b: bytes)
    requires d !in a
    ensures IndexOf(a + [d] + b, d) == |a|
    ensures IndexOf(a, d) == |a|
  {
    if a == [] {
      assert ([d] + b)[0] == d;
      assert a + [d] + b == [d] + b;
    } else {
      assert (a + [d] + b)[1..] == a[1..] + [d] + b;
      IndexOfConcat(a[1..], d, b);
    }
  }

  lemma {:induction false} IndexOfAtMost(s: bytes, d: byte, j: nat)
    requires j < |s| && s[j] == d
    ensures IndexOf(s, d) <= j
  {
    if j > 0 && s[0] != d {
      IndexOfAtMost(s[1..], d, j - 1);
    }
  }

  // ---- frame ----

  datatype Header = Header(delete: bool, keyLen: nat, valueLen: nat) | BadHeader(error: DecodeError)

  function ParseLength(s: bytes): Option<nat> {
    match Decimal.Parse(s)
    case Some(n) => if n >= 0 then Some(n) else None
    case None => None
  }

  function ParseHeader(header: bytes): Header {
    if header == [] then BadHeader(EmptyHeader)
    else
      var cut := IndexOf(header, SPACE);
      if cut == |header| || cut != 1 then BadHeader(UnknownOperation)
      else
        var lengths := header[cut + 1..];
        if header[0] == OP_PUT then
          var mid := IndexOf(lengths, SPACE);
          if mid == |lengths| || SPACE in lengths[mid + 1..] then BadHeader(InvalidPutHeader)
          else
            match (ParseLength(lengths[..mid]), ParseLength(lengths[mid + 1..]))
            case (Some(k), Some(v)) =>
              if k > MAX_RECORD_BYTES || v > MAX_RECORD_BYTES then BadHeader(RecordTooLarge) else Header(false, k, v)
            case _ => BadHeader(InvalidLength)
        else if header[0] == OP_DELETE then
          if SPACE in lengths then BadHeader(InvalidDeleteHeader)
          else
            match ParseLength(lengths)
            case Some(k) => if k > MAX_RECORD_BYTES then BadHeader(RecordTooLarge) else Header(true, k, 0)
            case None => BadHeader(InvalidLength)
        else BadHeader(UnknownOperation)
  }

  function FrameStep(s: bytes): (r: Step)
    ensures r.Item? ==> 0 < r.used <= |s|
    ensures r == End <==> s == []
  {
    if s == [] then End
    else
      var h := IndexOf(s, NEWLINE);
      if h > MAX_RECORD_BYTES then Bad(RecordTooLarge)
      else if h == |s| then Bad(TruncatedHeader)
      else
        match ParseHeader(s[..h])
        case BadHeader(e) => Bad(e)
        case Header(delete, k, v) =>
          var body := h + 1;
          FrameBody(s[body..], delete, k, v, body)
  }

  function FrameBody(body: bytes, delete: bool, k: nat, v: nat, before: nat): (r: Step)
    ensures r != End && (r.Item? ==> before <= r.used <= before + |body|)
  {
    if |body| < k + v then Bad(TruncatedBody) else Item(delete, body[..k], body[k..k + v], before + k + v)
  }

  // ---- kcat ----

  function KcatStep(s: bytes): (r: Step)
    ensures r.Item? ==> 0 < r.used <= |s|
    ensures r == End <==> s == []
  {
    if s == [] then End
    else
      var t := IndexOf(s, TAB);
      if t > MAX_RECORD_BYTES then Bad(RecordTooLarge)
      else if t == |s| then Bad(MissingKeySeparator)
      else if t == 0 then Bad(EmptyKey)
      else KcatAfterKey(s, t)
  }

  function KcatAfterKey(s: bytes, t: nat): (r: Step)
    requires t < |s|
    ensures r != End && (r.Item? ==> 0 < r.used <= |s|)
  {
    var rest := s[t + 1..];
    var u := IndexOf(rest, TAB);
    if u > MAX_RECORD_BYTES then Bad(RecordTooLarge)
    else if u == |rest| then Bad(MissingLengthSeparator)
    else
      match Decimal.Parse(rest[..u])
      case None => Bad(InvalidLength)
      case Some(size) =>
        if size < -1 then Bad(InvalidLength)
        else if size > MAX_RECORD_BYTES then Bad(RecordTooLarge)
        else KcatPayload(s[..t], size, rest[u + 1..], t + u + 2)
  }

  // The newline after the last record is optional.
  function KcatPayload(key: bytes, size: int, payload: bytes, before: nat): (r: Step)
    requires -1 <= size
    ensures r != End && (r.Item? ==> before <= r.used <= before + |payload|)
  {
    var n := if size < 0 then 0 else size;
    if |payload| < n then Bad(TruncatedPayload)
    else if |payload| == n then Item(size == -1, key, payload, before + n)
    else if payload[n] != NEWLINE then Bad(MissingNewline)
    else Item(size == -1, key, payload[..n], before + n + 1)
  }

  // ---- streams ----

  function StepOf(f: Format, s: bytes): (r: Step)
    ensures r.Item? ==> 0 < r.used <= |s|
    ensures r == End <==> s == []
  {
    match f
    case Kcat => KcatStep(s)
    case Frame => FrameStep(s)
  }

  // The records before the end or the first malformed one, and which it was.
  datatype Stream = Stream(records: seq<ApplyRecord>, error: Option<DecodeError>)

  function ParseStream(f: Format, s: bytes, line: nat, total: nat): Stream
    decreases |s|
  {
    match StepOf(f, s)
    case End => Stream([], None)
    case Bad(e) => Stream([], Some(e))
    case Item(delete, key, value, used) =>
      Prepend(ApplyRecord(delete, key, value, line + 1, total + used),
              ParseStream(f, s[used..], line + 1, total + used))
  }

  function Prepend(rec: ApplyRecord, rest: Stream): Stream {
    Stream([rec] + rest.records, rest.error)
  }

  // Totals grow from record to record, and records are numbered consecutively.
  ghost predicate Accounted(r: seq<ApplyRecord>, line: nat, total: nat) {
    r == [] || (r[0].line == line + 1 && total < r[0].bytes && Accounted(r[1..], line + 1, r[0].bytes))
  }

  function LastTotal(r: seq<ApplyRecord>, total: nat): nat {
    if r == [] then total else r[|r| - 1].bytes
  }

  // The totals end at `end` on success and never pass it.
  ghost predicate StreamAccounted(r: Stream, line: nat, total: nat, end: nat) {
    Accounted(r.records, line, total) && LastTotal(r.records, total) <= end
    && (r.error.None? ==> LastTotal(r.records, total) == end)
  }

  lemma PrependAccounted(rec: ApplyRecord, rest: Stream, line: nat, total: nat, end: nat)
    requires rec.line == line + 1 && total < rec.bytes && StreamAccounted(rest, line + 1, rec.bytes, end)
    ensures StreamAccounted(Prepend(rec, rest), line, total, end)
  {
    assert ([rec] + rest.records)[1..] == rest.records;
  }

  // On success the last total accounts for every byte of the input.
  lemma {:induction false} StreamBytes(f: Format, s: bytes, line: nat, total: nat)
    ensures StreamAccounted(ParseStream(f, s, line, total), line, total, total + |s|)
    decreases |s|
  {
    hide StepOf;
    match StepOf(f, s)
    case End =>
    case Bad(_) =>
    case Item(delete, key, value, used) =>
      var rec := ApplyRecord(delete, key, value, line + 1, total + used);
      var rest := ParseStream(f, s[used..], line + 1, total + used);
      StreamBytes(f, s[used..], line + 1, total + used);
      PrependAccounted(rec, rest, line, total, total + |s|);
  }

  // ---- the frame grammar as a relation, in the bytes on the wire ----

  // "D keyLength" or "P keyLength valueLength".
  function HeaderText(delete: bool, keyText: bytes, valueText: bytes): bytes {
    if delete then [68, 32] + keyText else [80, 32] + keyText + [32] + valueText
  }

  ghost predicate IsFrame(b: bytes, delete: bool, key: bytes, value: bytes) {
    |key| <= 64 * 1024 * 1024 && |value| <= 64 * 1024 * 1024 && (delete ==> value == [])
    && exists keyText, valueText :: FrameText(b, delete, key, value, keyText, valueText)
  }

  ghost predicate FrameText(b: bytes, delete: bool, key: bytes, value: bytes, keyText: bytes, valueText: bytes) {
    Decimal.Spells(keyText, |key|) && (delete || Decimal.Spells(valueText, |value|))
    && |HeaderText(delete, keyText, valueText)| <= 64 * 1024 * 1024
    && b == HeaderText(delete, keyText, valueText) + [10] + key + value
  }

  lemma LengthSpells(s: bytes, n: nat)
    ensures ParseLength(s) == Some(n) <==> Decimal.Spells(s, n)
  {
    Decimal.ParseExactly(s, n);
  }

  lemma LengthText(s: bytes)
    requires ParseLength(s).Some?
    ensures SPACE !in s && NEWLINE !in s && TAB !in s
  {
    Decimal.ParseCharacters(s);
  }

  // The header of a put or delete parses to exactly the lengths it spells.
  lemma HeaderComplete(delete: bool, keyText: bytes, valueText: bytes)
    requires ParseLength(keyText).Some? && ParseLength(keyText).value <= MAX_RECORD_BYTES
    requires !delete ==> ParseLength(valueText).Some? && ParseLength(valueText).value <= MAX_RECORD_BYTES
    ensures var h := HeaderText(delete, keyText, valueText);
            NEWLINE !in h
            && ParseHeader(h) == Header(delete, ParseLength(keyText).value,
                                        if delete then 0 else ParseLength(valueText).value)
  {
    hide IndexOf, ParseLength;
    var h := HeaderText(delete, keyText, valueText);
    LengthText(keyText);
    var op: byte := h[0];
    assert h == [op] + [SPACE] + h[2..];
    IndexOfConcat([op], SPACE, h[2..]);
    if delete {
      assert h[2..] == keyText;
    } else {
      LengthText(valueText);
      assert h[2..] == keyText + [SPACE] + valueText;
      IndexOfConcat(keyText, SPACE, valueText);
      assert h[2..][..|keyText|] == keyText && h[2..][|keyText| + 1..] == valueText;
    }
  }

  lemma HeaderSound(h: bytes) returns (keyText: bytes, valueText: bytes)
    requires ParseHeader(h).Header?
    ensures var p := ParseHeader(h);
            h == HeaderText(p.delete, keyText, valueText)
            && ParseLength(keyText) == Some(p.keyLen)
            && (if p.delete then p.valueLen == 0 else ParseLength(valueText) == Some(p.valueLen))
            && p.keyLen <= MAX_RECORD_BYTES && p.valueLen <= MAX_RECORD_BYTES
  {
    hide IndexOf, ParseLength;
    var lengths := h[2..];
    assert h == [h[0], h[1]] + lengths;
    if h[0] == OP_DELETE {
      keyText, valueText := lengths, [];
    } else {
      var mid := IndexOf(lengths, SPACE);
      keyText, valueText := lengths[..mid], lengths[mid + 1..];
      assert lengths == keyText + [SPACE] + valueText;
    }
  }

  // A front part that ends before d, then d, then the rest.
  lemma SplitAt(s: bytes, n: nat, front: bytes, d: byte, end: bytes)
    requires n <= |s| && s[..n] == front + [d] + end && d !in front
    ensures IndexOf(s, d) == |front| < n == |front| + 1 + |end|
    ensures s[..|front|] == front && s[|front| + 1..] == end + s[n..]
  {
    hide IndexOf;
    var rest := s[n..];
    assert s == s[..n] + rest;
    Associates(front + [d], end, rest);
    IndexOfConcat(front, d, end + rest);
    Around(front, d, end + rest);
  }

  lemma Around(a: bytes, d: byte, b: bytes)
    ensures (a + [d] + b)[..|a|] == a && (a + [d] + b)[|a| + 1..] == b
  {
  }

  lemma FrameBodyExact(delete: bool, key: bytes, value: bytes, rest: bytes, before: nat)
    ensures FrameBody(key + value + rest, delete, |key|, |value|, before)
            == Item(delete, key, value, before + |key| + |value|)
  {
    var body := key + value + rest;
    assert body[..|key|] == key && body[|key|..|key| + |value|] == value;
  }

  // The frame parser accepts exactly the frame grammar.
  lemma FrameStepComplete(s: bytes, delete: bool, key: bytes, value: bytes, n: nat)
    requires n <= |s| && IsFrame(s[..n], delete, key, value)
    ensures FrameStep(s) == Item(delete, key, value, n)
  {
    var keyText, valueText :| FrameText(s[..n], delete, key, value, keyText, valueText);
    FrameTextParses(s, delete, key, value, n, keyText, valueText);
  }

  lemma FrameTextParses(s: bytes, delete: bool, key: bytes, value: bytes, n: nat, keyText: bytes, valueText: bytes)
    requires n <= |s| && FrameText(s[..n], delete, key, value, keyText, valueText)
    requires |key| <= MAX_RECORD_BYTES && |value| <= MAX_RECORD_BYTES && (delete ==> value == [])
    ensures FrameStep(s) == Item(delete, key, value, n)
  {
    hide FrameStep, FrameBody, ParseHeader, IndexOf, ParseLength, Decimal.Spells;
    var h := HeaderText(delete, keyText, valueText);
    LengthSpells(keyText, |key|);
    LengthSpells(valueText, |value|);
    HeaderComplete(delete, keyText, valueText);
    assert s[..n] == h + [NEWLINE] + (key + value);
    SplitAt(s, n, h, NEWLINE, key + value);
    FrameFromHeader(s, |h|, delete, |key|, |value|);
    FrameBodyExact(delete, key, value, s[n..], |h| + 1);
  }

  lemma FrameFromHeader(s: bytes, h: nat, delete: bool, k: nat, v: nat)
    requires h == IndexOf(s, NEWLINE) < |s| && h <= MAX_RECORD_BYTES
    requires ParseHeader(s[..h]) == Header(delete, k, v)
    ensures FrameStep(s) == FrameBody(s[h + 1..], delete, k, v, h + 1)
  {
  }

  lemma FrameStepSound(s: bytes)
    requires FrameStep(s).Item?
    ensures var r := FrameStep(s); IsFrame(s[..r.used], r.delete, r.key, r.value)
  {
    var r := FrameStep(s);
    var h := IndexOf(s, NEWLINE);
    FrameIsParts(s, h);
    var keyText, valueText := HeaderSound(s[..h]);
    LengthSpells(keyText, |r.key|);
    LengthSpells(valueText, |r.value|);
    assert FrameText(s[..r.used], r.delete, r.key, r.value, keyText, valueText);
  }

  lemma FrameIsParts(s: bytes, h: nat)
    requires FrameStep(s).Item? && h == IndexOf(s, NEWLINE)
    ensures var r := FrameStep(s);
            h < |s| && h <= MAX_RECORD_BYTES && s[..r.used] == s[..h] + [NEWLINE] + r.key + r.value
            && ParseHeader(s[..h]) == Header(r.delete, |r.key|, |r.value|)
  {
  }

  // ---- what frames are refused for ----

  // 64 MiB, which is what the parsers' own limit has to be.
  const LIMIT := 64 * 1024 * 1024

  // A header, the newline that ends it, and what follows.
  lemma FrameFront(header: bytes, body: bytes)
    requires 10 !in header
    ensures FrameStep(header + [10] + body) ==
            if |header| > LIMIT then Bad(RecordTooLarge)
            else
              match ParseHeader(header)
              case BadHeader(e) => Bad(e)
              case Header(delete, k, v) => FrameBody(body, delete, k, v, |header| + 1)
  {
    hide ParseHeader, FrameBody, IndexOf;
    var s := header + [10] + body;
    IndexOfConcat(header, NEWLINE, body);
    assert s[..|header|] == header && s[|header| + 1..] == body;
  }

  // Input without a newline is a truncated header, unless it is too long already.
  lemma FrameWithoutNewline(s: bytes)
    requires 10 !in s && s != []
    ensures FrameStep(s) == Bad(if |s| > LIMIT then RecordTooLarge else TruncatedHeader)
  {
    hide IndexOf;
    IndexOfConcat(s, NEWLINE, []);
  }

  // What a put frame means, whatever its lengths and its body.
  lemma PutMeans(keyText: bytes, k: nat, valueText: bytes, v: nat, body: bytes)
    requires Decimal.Spells(keyText, k) && Decimal.Spells(valueText, v)
    requires |[80, 32] + keyText + [32] + valueText| <= LIMIT
    ensures var header := [80, 32] + keyText + [32] + valueText;
            FrameStep(header + [10] + body) ==
            if k > LIMIT || v > LIMIT then Bad(RecordTooLarge)
            else if |body| < k + v then Bad(TruncatedBody)
            else Item(false, body[..k], body[k..k + v], |header| + 1 + k + v)
  {
    hide FrameStep, IndexOf, Decimal.Spells, ParseLength;
    var header := [80, 32] + keyText + [32] + valueText;
    LengthSpells(keyText, k);
    LengthSpells(valueText, v);
    LengthText(keyText);
    LengthText(valueText);
    PutHeader(keyText, valueText);
    FrameFront(header, body);
  }

  // What a delete frame means.
  lemma DeleteMeans(keyText: bytes, k: nat, body: bytes)
    requires Decimal.Spells(keyText, k) && |[68, 32] + keyText| <= LIMIT
    ensures var header := [68, 32] + keyText;
            FrameStep(header + [10] + body) ==
            if k > LIMIT then Bad(RecordTooLarge)
            else if |body| < k then Bad(TruncatedBody)
            else Item(true, body[..k], [], |header| + 1 + k)
  {
    hide FrameStep, IndexOf, Decimal.Spells, ParseLength;
    var header := [68, 32] + keyText;
    LengthSpells(keyText, k);
    LengthText(keyText);
    DeleteHeader(keyText);
    FrameFront(header, body);
    assert k <= |body| ==> body[k..k] == [];
  }

  lemma PutHeader(a: bytes, b: bytes)
    requires 32 !in a
    ensures ParseHeader([80, 32] + a + [32] + b) ==
            if 32 in b then BadHeader(InvalidPutHeader)
            else
              match (ParseLength(a), ParseLength(b))
              case (Some(k), Some(v)) =>
                if k > LIMIT || v > LIMIT then BadHeader(RecordTooLarge) else Header(false, k, v)
              case _ => BadHeader(InvalidLength)
  {
    hide IndexOf, ParseLength;
    var h, lengths := [80, 32] + a + [32] + b, a + [32] + b;
    assert h == [80] + [SPACE] + lengths;
    IndexOfConcat([80], SPACE, lengths);
    IndexOfConcat(a, SPACE, b);
    assert h[2..] == lengths && lengths[..|a|] == a && lengths[|a| + 1..] == b;
  }

  lemma PutHeaderWithoutSpace(a: bytes)
    requires 32 !in a
    ensures ParseHeader([80, 32] + a) == BadHeader(InvalidPutHeader)
  {
    hide IndexOf, ParseLength;
    assert [80, 32] + a == [80] + [SPACE] + a && ([80, 32] + a)[2..] == a;
    IndexOfConcat([80], SPACE, a);
    IndexOfConcat(a, SPACE, []);
  }

  lemma DeleteHeader(a: bytes)
    ensures ParseHeader([68, 32] + a) ==
            if 32 in a then BadHeader(InvalidDeleteHeader)
            else
              match ParseLength(a)
              case Some(k) => if k > LIMIT then BadHeader(RecordTooLarge) else Header(true, k, 0)
              case None => BadHeader(InvalidLength)
  {
    hide IndexOf, ParseLength;
    assert [68, 32] + a == [68] + [SPACE] + a && ([68, 32] + a)[2..] == a;
    IndexOfConcat([68], SPACE, a);
  }

  lemma OtherHeader(header: bytes)
    requires !IsPrefix([80, 32], header) && !IsPrefix([68, 32], header)
    ensures ParseHeader(header) == BadHeader(if header == [] then EmptyHeader else UnknownOperation)
  {
    hide ParseLength;
    var i := IndexOf(header, SPACE);
    if i == 1 && |header| > 1 {
      assert header[..2] == [header[0], 32];
    }
  }

  ghost predicate SpellsLength(s: bytes) {
    exists n: nat :: Decimal.Spells(s, n)
  }

  lemma NoLength(s: bytes)
    ensures ParseLength(s).Some? <==> SpellsLength(s)
  {
    hide ParseLength, Decimal.Spells;
    if ParseLength(s).Some? {
      LengthSpells(s, ParseLength(s).value);
    }
    if n: nat :| Decimal.Spells(s, n) {
      LengthSpells(s, n);
    }
  }

  // Every other header is refused, each kind for its own reason.
  lemma FrameRefusals(header: bytes, a: bytes, b: bytes, body: bytes)
    requires 10 !in header && |header| <= LIMIT
    ensures var step := FrameStep(header + [10] + body);
            (header == [] ==> step == Bad(EmptyHeader))
            && (header != [] && !IsPrefix([80, 32], header) && !IsPrefix([68, 32], header) ==>
                  step == Bad(UnknownOperation))
            && (header == [80, 32] + a && 32 !in a ==> step == Bad(InvalidPutHeader))
            && (header == [80, 32] + a + [32] + b && 32 !in a && 32 in b ==> step == Bad(InvalidPutHeader))
            && (header == [80, 32] + a + [32] + b && 32 !in a && 32 !in b && !(SpellsLength(a) && SpellsLength(b)) ==>
                  step == Bad(InvalidLength))
            && (header == [68, 32] + a && 32 in a ==> step == Bad(InvalidDeleteHeader))
            && (header == [68, 32] + a && 32 !in a && !SpellsLength(a) ==> step == Bad(InvalidLength))
  {
    hide FrameStep, ParseHeader, FrameBody, SpellsLength;
    FrameFront(header, body);
    NoLength(a);
    NoLength(b);
    if !IsPrefix([80, 32], header) && !IsPrefix([68, 32], header) {
      OtherHeader(header);
    }
    if 32 !in a {
      PutHeaderWithoutSpace(a);
      PutHeader(a, b);
    }
    DeleteHeader(a);
  }

  // ---- the kcat grammar as a relation, in the bytes on the wire ----

  ghost predicate IsKcat(b: bytes, delete: bool, key: bytes, value: bytes, atEnd: bool) {
    key != [] && 9 !in key && |key| <= 64 * 1024 * 1024 && |value| <= 64 * 1024 * 1024
    && exists sizeText, newline :: KcatText(b, delete, key, value, atEnd, sizeText, newline)
  }

  ghost predicate KcatText(b: bytes, delete: bool, key: bytes, value: bytes, atEnd: bool, sizeText: bytes,
      newline: bytes) {
    Decimal.Spells(sizeText, if delete then -1 else |value|) && (delete ==> value == [])
    && |sizeText| <= 64 * 1024 * 1024
    && (newline == [10] || (newline == [] && atEnd))
    && b == key + [9] + sizeText + [9] + (value + newline)
  }

  lemma KcatPayloadComplete(key: bytes, size: int, value: bytes, newline: bytes, rest: bytes, before: nat)
    requires -1 <= size && |value| == (if size < 0 then 0 else size)
    requires newline == [NEWLINE] || (newline == [] && rest == [])
    ensures KcatPayload(key, size, value + newline + rest, before)
            == Item(size == -1, key, value, before + |value| + |newline|)
  {
    var payload := value + newline + rest;
    if newline == [] {
      assert payload == value;
    } else {
      assert payload[..|value|] == value && payload[|value|] == NEWLINE;
    }
  }

  // The kcat parser accepts exactly the kcat grammar.
  lemma KcatStepComplete(s: bytes, delete: bool, key: bytes, value: bytes, n: nat)
    requires n <= |s| && IsKcat(s[..n], delete, key, value, n == |s|)
    ensures KcatStep(s) == Item(delete, key, value, n)
  {
    var sizeText, newline :| KcatText(s[..n], delete, key, value, n == |s|, sizeText, newline);
    KcatTextParses(s, delete, key, value, n, sizeText, newline);
  }

  lemma KcatTextParses(s: bytes, delete: bool, key: bytes, value: bytes, n: nat, sizeText: bytes, newline: bytes)
    requires n <= |s| && KcatText(s[..n], delete, key, value, n == |s|, sizeText, newline)
    requires key != [] && TAB !in key && |key| <= MAX_RECORD_BYTES && |value| <= MAX_RECORD_BYTES
    ensures KcatStep(s) == Item(delete, key, value, n)
  {
    hide KcatStep, KcatPayload, IndexOf, Decimal.Parse, Decimal.Spells;
    Decimal.ParseExactly(sizeText, if delete then -1 else |value|);
    LengthOrMinusText(sizeText);
    var size := if delete then -1 else |value|;
    var end := sizeText + [TAB] + (value + newline);
    assert s[..n] == key + [TAB] + end;
    SplitAt(s, n, key, TAB, end);
    var rest := s[|key| + 1..];
    assert rest[..|end|] == end;
    SplitAt(rest, |end|, sizeText, TAB, value + newline);
    assert rest[|end|..] == s[n..];
    KcatPayloadComplete(key, size, value, newline, s[n..], |key| + |sizeText| + 2);
    KcatFromParts(s, |key|, |sizeText|, size);
  }

  lemma KcatFromParts(s: bytes, t: nat, u: nat, size: int)
    requires 0 < t == IndexOf(s, TAB) < |s| && t <= MAX_RECORD_BYTES
    requires u == IndexOf(s[t + 1..], TAB) < |s[t + 1..]| && u <= MAX_RECORD_BYTES
    requires Decimal.Parse(s[t + 1..][..u]) == Some(size) && -1 <= size <= MAX_RECORD_BYTES
    ensures KcatStep(s) == KcatPayload(s[..t], size, s[t + 1..][u + 1..], t + u + 2)
  {
    hide KcatPayload, IndexOf, Decimal.Parse;
  }

  lemma LengthOrMinusText(s: bytes)
    requires Decimal.Parse(s).Some?
    ensures TAB !in s
  {
    Decimal.ParseCharacters(s);
  }

  lemma KcatStepSound(s: bytes)
    requires KcatStep(s).Item?
    ensures var r := KcatStep(s); IsKcat(s[..r.used], r.delete, r.key, r.value, r.used == |s|)
  {
    hide KcatPayload, IndexOf, Decimal.Parse;
    var t := IndexOf(s, TAB);
    var u := IndexOf(s[t + 1..], TAB);
    var size := KcatIsParts(s, t, u);
    KcatSoundFromParts(s, t, u, size);
  }

  lemma KcatIsParts(s: bytes, t: nat, u: nat) returns (size: int)
    requires KcatStep(s).Item? && t == IndexOf(s, TAB) && (t < |s| ==> u == IndexOf(s[t + 1..], TAB))
    ensures 0 < t < |s| && t <= MAX_RECORD_BYTES && s[t] == TAB && TAB !in s[..t]
    ensures u < |s[t + 1..]| && u <= MAX_RECORD_BYTES && s[t + 1..][u] == TAB
    ensures Decimal.Parse(s[t + 1..][..u]) == Some(size) && -1 <= size <= MAX_RECORD_BYTES
    ensures KcatStep(s) == KcatPayload(s[..t], size, s[t + 1..][u + 1..], t + u + 2)
  {
    hide KcatPayload, IndexOf, Decimal.Parse;
    size := Decimal.Parse(s[t + 1..][..u]).value;
  }

  lemma KcatSoundFromParts(s: bytes, t: nat, u: nat, size: int)
    requires 0 < t < |s| && t <= MAX_RECORD_BYTES && s[t] == TAB && TAB !in s[..t]
    requires u < |s[t + 1..]| && u <= MAX_RECORD_BYTES && s[t + 1..][u] == TAB
    requires Decimal.Parse(s[t + 1..][..u]) == Some(size) && -1 <= size <= MAX_RECORD_BYTES
    requires KcatPayload(s[..t], size, s[t + 1..][u + 1..], t + u + 2).Item?
    ensures var r := KcatPayload(s[..t], size, s[t + 1..][u + 1..], t + u + 2);
            r.used <= |s| && IsKcat(s[..r.used], r.delete, r.key, r.value, r.used == |s|)
  {
    hide KcatPayload, Decimal.Parse, Decimal.Spells;
    Decimal.ParseExactly(s[t + 1..][..u], size);
    var sizeText, payload := s[t + 1..][..u], s[t + 1..][u + 1..];
    var r := KcatPayload(s[..t], size, payload, t + u + 2);
    var newline := KcatPayloadSound(s[..t], size, payload, t + u + 2);
    KcatJoin(s, t, u, r.used, r.value, newline);
    assert KcatText(s[..r.used], r.delete, r.key, r.value, r.used == |s|, sizeText, newline);
  }

  lemma KcatPayloadSound(key: bytes, size: int, payload: bytes, before: nat) returns (newline: bytes)
    requires -1 <= size && KcatPayload(key, size, payload, before).Item?
    ensures var r := KcatPayload(key, size, payload, before);
            r.key == key && r.delete == (size == -1) && |r.value| == (if size < 0 then 0 else size)
            && (newline == [NEWLINE] || (newline == [] && r.used == before + |payload|))
            && r.used == before + |r.value| + |newline| && r.used <= before + |payload|
            && payload[..r.used - before] == r.value + newline
  {
    var r := KcatPayload(key, size, payload, before);
    if |payload| == |r.value| {
      newline := [];
    } else {
      newline := [NEWLINE];
    }
  }

  lemma KcatJoin(s: bytes, t: nat, u: nat, used: nat, value: bytes, newline: bytes)
    requires t < |s| && s[t] == TAB && u < |s[t + 1..]| && s[t + 1..][u] == TAB
    requires t + u + 2 + |value| + |newline| == used <= |s|
    requires s[t + 1..][u + 1..][..used - t - u - 2] == value + newline
    ensures s[..used] == s[..t] + [TAB] + s[t + 1..][..u] + [TAB] + (value + newline)
  {
    assert s[t + 1..][u + 1..] == s[t + u + 2..];
    assert s[..used] == s[..t + u + 2] + s[t + u + 2..][..used - t - u - 2];
    assert s[..t + u + 2] == s[..t] + [TAB] + s[t + 1..][..u] + [TAB];
  }

  // ---- what kcat records are refused for ----

  // A key, a size and what follows, whatever the size spells.
  lemma KcatMeans(key: bytes, sizeText: bytes, size: int, payload: bytes)
    requires key != [] && 9 !in key && |key| <= LIMIT && |sizeText| <= LIMIT
    requires Decimal.Spells(sizeText, size)
    ensures var n := if size < 0 then 0 else size;
            var before := |key| + |sizeText| + 2;
            KcatStep(key + [9] + sizeText + [9] + payload) ==
            if size < -1 then Bad(InvalidLength)
            else if size > LIMIT then Bad(RecordTooLarge)
            else if |payload| < n then Bad(TruncatedPayload)
            else if |payload| == n then Item(size == -1, key, payload, before + n)
            else if payload[n] != 10 then Bad(MissingNewline)
            else Item(size == -1, key, payload[..n], before + n + 1)
  {
    hide KcatStep, KcatAfterKey, IndexOf, Decimal.Spells, Decimal.Parse;
    Decimal.ParseExactly(sizeText, size);
    LengthOrMinusText(sizeText);
    KcatFront(key, sizeText + [9] + payload);
    assert key + [9] + sizeText + [9] + payload == key + [9] + (sizeText + [9] + payload);
    KcatSize(key, sizeText, payload);
  }

  lemma KcatFront(key: bytes, rest: bytes)
    requires 9 !in key
    ensures var s := key + [9] + rest;
            KcatStep(s) == if |key| > LIMIT then Bad(RecordTooLarge) else if key == [] then Bad(EmptyKey)
                           else KcatAfterKey(s, |key|)
  {
    hide KcatAfterKey, IndexOf;
    IndexOfConcat(key, TAB, rest);
  }

  lemma KcatSize(key: bytes, sizeText: bytes, payload: bytes)
    requires 9 !in sizeText
    ensures var s := key + [9] + (sizeText + [9] + payload);
            KcatAfterKey(s, |key|) ==
            if |sizeText| > LIMIT then Bad(RecordTooLarge)
            else
              match Decimal.Parse(sizeText)
              case None => Bad(InvalidLength)
              case Some(size) =>
                if size < -1 then Bad(InvalidLength)
                else if size > LIMIT then Bad(RecordTooLarge)
                else KcatPayload(key, size, payload, |key| + |sizeText| + 2)
  {
    hide KcatPayload, IndexOf, Decimal.Parse;
    var s, rest := key + [9] + (sizeText + [9] + payload), sizeText + [9] + payload;
    assert s[|key| + 1..] == rest && s[..|key|] == key;
    IndexOfConcat(sizeText, TAB, payload);
    assert rest[..|sizeText|] == sizeText && rest[|sizeText| + 1..] == payload;
  }

  // Every other record is refused, each kind for its own reason.
  lemma KcatRefusals(key: bytes, rest: bytes, sizeText: bytes, payload: bytes)
    requires 9 !in key && 9 !in sizeText
    ensures key != [] ==> KcatStep(key) == Bad(if |key| > LIMIT then RecordTooLarge else MissingKeySeparator)
    ensures |key| > LIMIT ==> KcatStep(key + [9] + rest) == Bad(RecordTooLarge)
    ensures KcatStep([9] + rest) == Bad(EmptyKey)
    ensures 0 < |key| <= LIMIT ==>
              KcatStep(key + [9] + sizeText)
              == Bad(if |sizeText| > LIMIT then RecordTooLarge else MissingLengthSeparator)
              && (|sizeText| > LIMIT ==> KcatStep(key + [9] + (sizeText + [9] + payload)) == Bad(RecordTooLarge))
              && (|sizeText| <= LIMIT && (forall n :: !Decimal.Spells(sizeText, n)) ==>
                    KcatStep(key + [9] + (sizeText + [9] + payload)) == Bad(InvalidLength))
  {
    hide KcatStep, KcatAfterKey, KcatPayload, IndexOf, Decimal.Parse, Decimal.Spells;
    KcatWithoutTab(key);
    KcatFront(key, rest);
    KcatFront([], rest);
    assert [] + [9] + rest == [9] + rest;
    KcatFront(key, sizeText);
    KcatWithoutSize(key, sizeText);
    KcatFront(key, sizeText + [9] + payload);
    KcatSize(key, sizeText, payload);
    if Decimal.Parse(sizeText).Some? {
      Decimal.ParseExactly(sizeText, Decimal.Parse(sizeText).value);
    }
  }

  lemma KcatWithoutTab(s: bytes)
    requires 9 !in s
    ensures s != [] ==> KcatStep(s) == Bad(if |s| > LIMIT then RecordTooLarge else MissingKeySeparator)
  {
    hide IndexOf, KcatAfterKey;
    IndexOfConcat(s, TAB, []);
  }

  lemma KcatWithoutSize(key: bytes, sizeText: bytes)
    requires 9 !in sizeText
    ensures KcatAfterKey(key + [9] + sizeText, |key|)
            == Bad(if |sizeText| > LIMIT then RecordTooLarge else MissingLengthSeparator)
  {
    hide IndexOf;
    assert (key + [9] + sizeText)[|key| + 1..] == sizeText;
    IndexOfConcat(sizeText, TAB, []);
  }

  // "key\t-1\t\n" deletes the key, whatever follows.
  lemma Tombstone(key: bytes, rest: bytes)
    requires key != [] && 9 !in key && |key| <= LIMIT
    ensures KcatStep(key + [9, 45, 49, 9, 10] + rest) == Item(true, key, [], |key| + 5)
  {
    hide KcatStep;
    var payload: bytes := [10] + rest;
    assert key + [9, 45, 49, 9, 10] + rest == key + [9] + [45, 49] + [9] + payload;
    MinusOne();
    KcatMeans(key, [45, 49], -1, payload);
    assert payload[..0] == [];
  }

  lemma MinusOne()
    ensures Decimal.Spells([45, 49], -1)
  {
    assert [45 as byte, 49][1..] == [49];
    assert [49 as byte][1..] == [];
    assert Decimal.Weigh([49]) == 1 * Decimal.Power10(0) + Decimal.Weigh([]);
  }

  // ---- the frame printer ----

  function FrameHeader(key: bytes, value: bytes): bytes {
    HeaderText(false, Decimal.Print(|key|), Decimal.Print(|value|)) + [10]
  }

  function PrintFrame(key: bytes, value: bytes): bytes {
    FrameHeader(key, value) + key + value
  }

  // Nothing in the program prints deletes; this is how a producer would.
  function DeleteFrame(key: bytes): bytes {
    HeaderText(true, Decimal.Print(|key|), []) + [10] + key
  }

  lemma DeleteThenParse(key: bytes, rest: bytes)
    requires |key| <= MAX_RECORD_BYTES
    ensures FrameStep(DeleteFrame(key) + rest) == Item(true, key, [], |DeleteFrame(key)|)
  {
    var b := DeleteFrame(key);
    Decimal.ParsePrint(|key|);
    Decimal.PrintLength(|key|, 8);
    assert b == HeaderText(true, Decimal.Print(|key|), []) + [NEWLINE] + key + [];
    assert FrameText(b, true, key, [], Decimal.Print(|key|), []);
    assert (b + rest)[..|b|] == b;
    FrameStepComplete(b + rest, true, key, [], |b|);
  }

  // Printing and then parsing a put gives it back, whatever follows it.
  lemma PrintThenParse(key: bytes, value: bytes, rest: bytes)
    requires |key| <= MAX_RECORD_BYTES && |value| <= MAX_RECORD_BYTES
    ensures FrameStep(PrintFrame(key, value) + rest) == Item(false, key, value, |PrintFrame(key, value)|)
  {
    var b := PrintFrame(key, value);
    Decimal.ParsePrint(|key|);
    Decimal.ParsePrint(|value|);
    Decimal.PrintLength(|key|, 8);
    Decimal.PrintLength(|value|, 8);
    assert FrameText(b, false, key, value, Decimal.Print(|key|), Decimal.Print(|value|));
    assert (b + rest)[..|b|] == b;
    FrameStepComplete(b + rest, false, key, value, |b|);
  }

  lemma ParsedLength(s: bytes)
    ensures ParseLength(s).Some? ==> Decimal.Parse(s) == Some(ParseLength(s).value)
  {
  }

  lemma SameHeaderTexts(a: bytes, b: bytes, c: bytes, d: bytes)
    requires SPACE !in a && SPACE !in c
    requires HeaderText(false, a, b) == HeaderText(false, c, d)
    ensures a == c && b == d
  {
    var s, t := a + [SPACE] + b, c + [SPACE] + d;
    assert s == HeaderText(false, a, b)[2..] && t == HeaderText(false, c, d)[2..];
    IndexOfConcat(a, SPACE, b);
    IndexOfConcat(c, SPACE, d);
    assert s[..|a|] == a && s[|a| + 1..] == b && t[..|c|] == c && t[|c| + 1..] == d;
  }

  lemma ReprintText(b: bytes, key: bytes, value: bytes, keyText: bytes, valueText: bytes)
    requires FrameText(b, false, key, value, keyText, valueText)
    ensures PrintFrame(key, value) == b <==> Decimal.Canonical(keyText) && Decimal.Canonical(valueText)
  {
    hide HeaderText, Decimal.Canonical, Decimal.Print, Decimal.Spells, ParseLength;
    LengthSpells(keyText, |key|);
    LengthSpells(valueText, |value|);
    ParsedLength(keyText);
    ParsedLength(valueText);
    var k, v := Decimal.Print(|key|), Decimal.Print(|value|);
    Decimal.ReprintExactly(keyText);
    Decimal.ReprintExactly(valueText);
    if PrintFrame(key, value) == b {
      var h, t := HeaderText(false, k, v), HeaderText(false, keyText, valueText);
      assert b == h + ([NEWLINE] + key + value) && b == t + ([NEWLINE] + key + value);
      assert h == b[..|h|] && t == b[..|t|];
      PrintedHasNoSpace(|key|);
      LengthText(keyText);
      SameHeaderTexts(k, v, keyText, valueText);
    }
  }

  lemma {:induction false} PrintedHasNoSpace(n: nat)
    ensures SPACE !in Decimal.Print(n)
  {
    if n >= 10 {
      PrintedHasNoSpace(n / 10);
    }
  }

  // Printing what a put frame was parsed to gives its bytes back exactly if
  // neither length text has a sign or a leading zero.
  lemma ReprintFrame(s: bytes) returns (keyText: bytes, valueText: bytes)
    requires FrameStep(s).Item? && !FrameStep(s).delete
    ensures var r := FrameStep(s);
            FrameText(s[..r.used], false, r.key, r.value, keyText, valueText)
            && (PrintFrame(r.key, r.value) == s[..r.used] <==>
                Decimal.Canonical(keyText) && Decimal.Canonical(valueText))
  {
    hide FrameStep, PrintFrame, FrameText;
    var r := FrameStep(s);
    FrameStepSound(s);
    keyText, valueText := FrameTexts(s[..r.used], r.key, r.value);
    ReprintText(s[..r.used], r.key, r.value, keyText, valueText);
  }

  lemma FrameTexts(b: bytes, key: bytes, value: bytes) returns (keyText: bytes, valueText: bytes)
    requires IsFrame(b, false, key, value)
    ensures FrameText(b, false, key, value, keyText, valueText)
  {
    hide FrameText;
    keyText, valueText :| FrameText(b, false, key, value, keyText, valueText);
  }
}
