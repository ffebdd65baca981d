// Physical keys: how a collection name and a user key become one Pebble key,
// and which half-open intervals of physical keys hold a selection.
module Keyenc {
  import opened Bytes

  const META_PREFIX: byte := 0x00
  const DATA_PREFIX: byte := 0x01
  const MAX_VARINT_LEN64 := 10

  // ---- unsigned LEB128 (section 7.6 of DWARF 5), as in encoding/binary ----

  function PutUvarint(n: nat): (r: bytes)
    ensures r != []
  {
    if n < 0x80 then [n as byte] else [(n % 0x80 + 0x80) as byte] + PutUvarint(n / 0x80)
  }

  datatype Varint = Varint(value: nat, used: nat)

  // Decodes the varint at the front of s, whose first byte is number i of the
  // encoding. A tenth byte above 1 or an eleventh byte would overflow 64 bits.
  function UvarintFrom(s: bytes, i: nat): Option<Varint> {
    if s == [] || i == MAX_VARINT_LEN64 then None
    else if s[0] < 0x80 then
      if i == MAX_VARINT_LEN64 - 1 && s[0] > 1 then None else Some(Varint(s[0] as int, 1))
    else
      match UvarintFrom(s[1..], i + 1)
      case None => None
      case Some(v) => Some(Varint(s[0] as int - 0x80 + 0x80 * v.value, v.used + 1))
  }

  function Uvarint(s: bytes): Option<Varint> {
    UvarintFrom(s, 0)
  }

  // ---- physical keys ----

  function MetadataKey(name: bytes): bytes {
    [META_PREFIX] + name
  }

  function Ascii(s: string): (r: bytes)
    requires forall c :: c in s ==> c < 128 as char
    ensures |r| == |s| && forall i :: 0 <= i < |s| ==> r[i] as int == s[i] as int
  {
    seq(|s|, i requires 0 <= i < |s| => (assert s[i] in s; (s[i] as int) as byte))
  }

  function CollectionMetaPrefix(): bytes {
    MetadataKey(Ascii("collection/"))
  }

  function CollectionMetaKey(collection: bytes): bytes {
    MetadataKey(Ascii("collection/") + collection)
  }

  function CollectionBase(collection: bytes): bytes {
    [DATA_PREFIX] + PutUvarint(|collection|) + collection + [0x00]
  }

  function DataKey(collection: bytes, userKey: bytes): bytes {
    CollectionBase(collection) + userKey
  }

  datatype Decoded = Decoded(collection: bytes, userKey: bytes)

  function DecodeDataKeyView(physical: bytes): Option<Decoded> {
    if |physical| < 3 || physical[0] != DATA_PREFIX then None
    else
      match Uvarint(physical[1..])
      case None => None
      case Some(v) =>
        var pos := 1 + v.used;
        if pos >= |physical| || v.value > |physical| - pos - 1 then None
        else
          var end := pos + v.value;
          if physical[end] != 0x00 then None
          else Some(Decoded(physical[pos..end], physical[end + 1..]))
  }

  // ---- prefix successors and bounds ----

  // The least string above every string that starts with b; none if b is all 0xff.
  function NextPrefix(b: bytes): Option<bytes> {
    if b == [] then None
    else
      match NextPrefix(b[1..])
      case Some(t) => Some([b[0]] + t)
      case None => if b[0] < 0xff then Some([b[0] + 1]) else None
  }

  // The in-place loop: increment the last byte that can be, and cut after it.
  method NextPrefixLoop(b: bytes) returns (out: Option<bytes>)
    ensures out == NextPrefix(b)
  {
    var a := new byte[|b|](i requires 0 <= i < |b| => b[i]);
    assert a[..] == b;
    var i := |b|;
    assert b[..i] == b;
    while i > 0
      invariant 0 <= i <= |b|
      invariant a[..] == b
      invariant NextPrefix(b) == NextPrefix(b[..i])
    {
      i := i - 1;
      NextPrefixLast(b[..i + 1]);
      assert b[..i + 1][..i] == b[..i];
      if a[i] != 0xff {
        a[i] := a[i] + 1;
        assert a[..i + 1] == b[..i] + [b[i] + 1];
        return Some(a[..i + 1]);
      }
    }
    return None;
  }

  // The recursion from the front agrees with the loop from the back.
  lemma {:induction false} NextPrefixLast(b: bytes)
    requires b != []
    ensures var last := |b| - 1;
            NextPrefix(b) == if b[last] < 0xff then Some(b[..last] + [b[last] + 1]) else NextPrefix(b[..last])
  {
    if |b| == 1 {
      assert b[..0] == [] && b[1..] == [];
      assert b[0] < 0xff ==> b[..0] + [b[0] + 1] == [b[0] + 1];
    } else {
      NextPrefixLast(b[1..]);
      var last := |b| - 1;
      assert b[1..][..last - 1] == b[..last][1..];
      assert b[..last] == [b[0]] + b[..last][1..];
      if b[last] < 0xff {
        assert [b[0]] + (b[..last][1..] + [b[last] + 1]) == b[..last] + [b[last] + 1];
      }
    }
  }

  datatype Bounds = Bounds(lower: bytes, upper: Option<bytes>)

  function CollectionBounds(collection: bytes): Bounds {
    var lower := CollectionBase(collection);
    Bounds(lower, NextPrefix(lower))
  }

  function PrefixBounds(collection: bytes, prefix: bytes): Bounds {
    var lower := CollectionBase(collection) + prefix;
    match NextPrefix(lower)
    case Some(next) => Bounds(lower, Some(next))
    case None => Bounds(lower, CollectionBounds(collection).upper)
  }

  // bytes.Compare reads a nil upper bound as the empty string.
  function OrEmpty(upper: Option<bytes>): bytes {
    if upper.Some? then upper.value else []
  }

  method ScanBounds(collection: bytes, prefix: bytes, start: Option<bytes>, end: Option<bytes>)
    returns (lower: bytes, upper: Option<bytes>)
    ensures upper.Some?
    ensures forall p :: Within(p, lower, upper) <==> SelectedPhysical(p, collection, prefix, start, end)
  {
    var b := PrefixBounds(collection, prefix);
    lower, upper := b.lower, b.upper;
    NextPrefixOfBase(collection, prefix);
    ghost var lower0, upper0 := lower, upper;
    if start.Some? {
      var bound := DataKey(collection, start.value);
      if Less(lower, bound) {
        lower := bound;
      }
    }
    if end.Some? {
      var bound := DataKey(collection, end.value);
      if Less(bound, OrEmpty(upper)) {
        upper := Some(bound);
      }
    }
    forall p
      ensures Within(p, lower, upper) <==> SelectedPhysical(p, collection, prefix, start, end)
    {
      IntersectLower(p, lower0, if start.Some? then DataKey(collection, start.value) else lower0);
      IntersectUpper(p, upper0.value, if end.Some? then DataKey(collection, end.value) else upper0.value);
      LessIrreflexive(lower0);
      LessIrreflexive(upper0.value);
      SelectedByKey(p, collection, prefix, start, end);
    }
  }

  // ---- which keys a selection means ----

  predicate Selects(key: bytes, prefix: bytes, start: Option<bytes>, end: Option<bytes>) {
    IsPrefix(prefix, key)
    && (start.None? || AtMost(start.value, key))
    && (end.None? || Less(key, end.value))
  }

  // p is the physical key of some selected user key.
  ghost predicate SelectedPhysical(p: bytes, collection: bytes, prefix: bytes, start: Option<bytes>,
      end: Option<bytes>) {
    exists k :: p == DataKey(collection, k) && Selects(k, prefix, start, end)
  }

  lemma IntersectLower(p: bytes, a: bytes, b: bytes)
    ensures AtMost(if Less(a, b) then b else a, p) <==> AtMost(a, p) && AtMost(b, p)
  {
    if Less(a, b) {
      LessAsymmetric(a, b);
      if AtMost(b, p) { AtMostTransitive(a, b, p); }
    } else if AtMost(a, p) {
      AtMostTransitive(b, a, p);
    }
  }

  lemma IntersectUpper(p: bytes, a: bytes, b: bytes)
    ensures Less(p, if Less(b, a) then b else a) <==> Less(p, a) && Less(p, b)
  {
    LessTotal(a, b);
    if Less(b, a) {
      if Less(p, b) { LessTransitive(p, b, a); }
    } else if Less(p, a) && a != b {
      LessTransitive(p, a, b);
    }
  }

  lemma SelectedByKey(p: bytes, collection: bytes, prefix: bytes, start: Option<bytes>, end: Option<bytes>)
    ensures var base := CollectionBase(collection);
            SelectedPhysical(p, collection, prefix, start, end) <==>
              Within(p, base + prefix, NextPrefix(base + prefix))
              && (start.None? || AtMost(base + start.value, p))
              && (end.None? || Less(p, base + end.value))
  {
    var base := CollectionBase(collection);
    NextPrefixExact(base + prefix, p);
    if IsPrefix(base + prefix, p) {
      var k := p[|base|..];
      assert p == base + k by { assert p[..|base|] == (base + prefix)[..|base|]; }
      assert k[..|prefix|] == (base + prefix)[|base|..];
      forall x ensures Less(base + x, p) <==> Less(x, k) { LessPrepend(base, x, k); }
      forall x ensures Less(p, base + x) <==> Less(k, x) { LessPrepend(base, k, x); }
      assert p == DataKey(collection, k);
      assert Selects(k, prefix, start, end) ==> SelectedPhysical(p, collection, prefix, start, end);
    }
    forall k | p == DataKey(collection, k) && Selects(k, prefix, start, end)
      ensures IsPrefix(base + prefix, p) && k == p[|base|..]
    {
    }
  }

  // ---- NextPrefix is exact ----

  lemma {:induction false} NextPrefixExact(b: bytes, s: bytes)
    ensures Within(s, b, NextPrefix(b)) <==> IsPrefix(b, s)
  {
    if b == [] {
      assert s[..0] == b;
    } else if s != [] {
      NextPrefixExact(b[1..], s[1..]);
      PrefixStep(b, s);
      var next := NextPrefix(b[1..]);
      if next.Some? {
        assert NextPrefix(b) == Some([b[0]] + next.value);
        assert ([b[0]] + next.value)[1..] == next.value;
      } else if b[0] < 0xff {
        assert NextPrefix(b) == Some([b[0] + 1]);
        assert Less(s, [b[0] + 1]) <==> s[0] <= b[0];
      }
      assert AtMost(b, s) <==> b[0] < s[0] || (b[0] == s[0] && AtMost(b[1..], s[1..]));
    }
  }

  lemma {:induction false} NextPrefixFails(b: bytes)
    ensures NextPrefix(b).None? <==> forall i :: 0 <= i < |b| ==> b[i] == 0xff
  {
    if b != [] {
      NextPrefixFails(b[1..]);
      assert forall i :: 0 < i < |b| ==> b[i] == b[1..][i - 1];
    }
  }

  // A string that starts with a collection base always has a successor.
  lemma NextPrefixOfBase(collection: bytes, rest: bytes)
    ensures NextPrefix(CollectionBase(collection) + rest).Some?
    ensures PrefixBounds(collection, rest).upper == NextPrefix(CollectionBase(collection) + rest)
  {
    NextPrefixFails(CollectionBase(collection) + rest);
    assert (CollectionBase(collection) + rest)[0] == DATA_PREFIX;
  }

  // Every key of a collection lies within its bounds, and nothing else does.
  lemma CollectionBoundsExact(collection: bytes, p: bytes)
    ensures CollectionBounds(collection).upper.Some?
    ensures Within(p, CollectionBounds(collection).lower, CollectionBounds(collection).upper)
            <==> exists k :: p == DataKey(collection, k)
  {
    NextPrefixOfBase(collection, []);
    var base := CollectionBase(collection);
    assert base + [] == base;
    NextPrefixExact(base, p);
    if IsPrefix(base, p) {
      assert p == DataKey(collection, p[|base|..]);
    }
  }

  // ---- round trip, isolation, order ----

  // What still fits in 64 bits when i bytes of seven bits are already used.
  ghost function VarintRoom(i: nat): nat
    requires i < MAX_VARINT_LEN64
  {
    if i == 0 then 0x1_0000_0000_0000_0000
    else if i == 1 then 0x200_0000_0000_0000
    else if i == 2 then 0x4_0000_0000_0000
    else if i == 3 then 0x800_0000_0000
    else if i == 4 then 0x10_0000_0000
    else if i == 5 then 0x2000_0000
    else if i == 6 then 0x40_0000
    else if i == 7 then 0x8000
    else if i == 8 then 0x100
    else 2
  }

  lemma {:induction false} UvarintRoundTrip(n: nat, i: nat, rest: bytes)
    requires i < MAX_VARINT_LEN64 && n < VarintRoom(i)
    ensures UvarintFrom(PutUvarint(n) + rest, i) == Some(Varint(n, |PutUvarint(n)|))
    decreases n
  {
    if n < 0x80 {
      assert (PutUvarint(n) + rest)[0] == n as byte;
    } else {
      UvarintRoundTrip(n / 0x80, i + 1, rest);
      assert (PutUvarint(n) + rest)[1..] == PutUvarint(n / 0x80) + rest;
    }
  }

  // Seven bits a byte, least significant first.
  ghost function VarintWeight(s: bytes): nat {
    if s == [] then 0 else s[0] as int % 0x80 + 0x80 * VarintWeight(s[1..])
  }

  // q is a varint of at most ten bytes, padded or not: the top bit is set on all
  // bytes but the last.
  ghost predicate IsVarint(q: bytes) {
    q != [] && |q| <= 10 && q[|q| - 1] < 0x80 && forall i :: 0 <= i < |q| - 1 ==> q[i] >= 0x80
  }

  // What decodes as a varint, and what is left of 64 bits when i bytes are used.
  lemma {:induction false} UvarintFromExactly(s: bytes, i: nat, v: nat, n: nat)
    requires i < MAX_VARINT_LEN64
    ensures UvarintFrom(s, i) == Some(Varint(v, n)) <==>
            n <= |s| && n + i <= 10 && IsVarint(s[..n]) && v == VarintWeight(s[..n]) && v < VarintRoom(i)
    decreases |s|
  {
    hide VarintWeight;
    if s != [] && s[0] < 0x80 {
      if n == 1 {
        OneByteWeight(s);
      } else if 1 < n <= |s| {
        assert s[..n][0] == s[0];
      }
    } else if s != [] && 1 < n <= |s| && i + 1 < MAX_VARINT_LEN64 {
      RoomStep(i);
      VarintCons(s, n);
      UvarintFromExactly(s[1..], i + 1, VarintWeight(s[1..][..n - 1]), n - 1);
      if UvarintFrom(s[1..], i + 1).Some? {
        UvarintFromExactly(s[1..], i + 1, UvarintFrom(s[1..], i + 1).value.value, n - 1);
      }
    }
    if UvarintFrom(s, i).Some? {
      UvarintMinimal(s, i);
    }
    if 0 < n <= |s| {
      assert s[..n][n - 1] == s[n - 1];
    }
  }

  lemma OneByteWeight(s: bytes)
    requires s != [] && s[0] < 0x80
    ensures s[..1] == [s[0]] && VarintWeight(s[..1]) == s[0] as int
  {
    assert s[..1] == [s[0]] && [s[0]][1..] == [];
    assert VarintWeight(s[..1]) == s[0] as int + 0x80 * VarintWeight([]);
  }

  lemma RoomStep(i: nat)
    requires i + 1 < MAX_VARINT_LEN64
    ensures VarintRoom(i) == 0x80 * VarintRoom(i + 1)
  {
  }

  lemma VarintCons(s: bytes, n: nat)
    requires 0 < n <= |s| && s[0] >= 0x80
    ensures IsVarint(s[..n]) <==> n > 1 && n <= 10 && IsVarint(s[1..][..n - 1])
    ensures VarintWeight(s[..n]) == s[0] as int - 0x80 + 0x80 * VarintWeight(s[1..][..n - 1])
  {
    var q, t := s[..n], s[1..][..n - 1];
    assert q == [s[0]] + t && q[1..] == t;
    if n > 1 && IsVarint(t) {
      forall i | 0 <= i < |q| - 1 ensures q[i] >= 0x80 {
        assert i > 0 ==> q[i] == t[i - 1];
      }
    }
    if n > 1 && IsVarint(q) {
      forall i | 0 <= i < |t| - 1 ensures t[i] >= 0x80 {
        assert t[i] == q[i + 1];
      }
    }
  }

  // Decoding accepts exactly the varints, padded or not, that fit in 64 bits.
  lemma UvarintExactly(s: bytes, v: nat, n: nat)
    ensures Uvarint(s) == Some(Varint(v, n)) <==>
            n <= |s| && IsVarint(s[..n]) && v == VarintWeight(s[..n]) < 0x1_0000_0000_0000_0000
  {
    UvarintFromExactly(s, 0, v, n);
  }

  // The code is prefix-free: where two encodings are followed by anything and
  // the results agree, the numbers and the followers agree.
  lemma {:induction false} UvarintPrefixFree(m: nat, n: nat, x: bytes, y: bytes)
    requires PutUvarint(m) + x == PutUvarint(n) + y
    ensures m == n && x == y
    decreases m
  {
    UvarintSplit(m, x);
    UvarintSplit(n, y);
    if m >= 0x80 {
      hide PutUvarint;
      UvarintPrefixFree(m / 0x80, n / 0x80, x, y);
      assert m % 0x80 == n % 0x80;
    }
  }

  // The first byte of an encoding and what follows it.
  lemma UvarintSplit(n: nat, x: bytes)
    ensures var s := PutUvarint(n) + x;
            s[0] as int == (if n < 0x80 then n else n % 0x80 + 0x80)
            && s[1..] == (if n < 0x80 then x else PutUvarint(n / 0x80) + x)
  {
    if n < 0x80 {
      SplitFirst(n as byte, [], x);
      assert [] + x == x;
    } else {
      SplitFirst((n % 0x80 + 0x80) as byte, PutUvarint(n / 0x80), x);
    }
  }

  lemma SplitFirst(b: byte, r: bytes, x: bytes)
    ensures var s := [b] + r + x; s[0] == b && s[1..] == r + x
  {
  }

  lemma DecodeEncode(collection: bytes, userKey: bytes)
    requires |collection| <= MAX_INT
    ensures DecodeDataKeyView(DataKey(collection, userKey)) == Some(Decoded(collection, userKey))
  {
    var p := DataKey(collection, userKey);
    var length := PutUvarint(|collection|);
    assert p[1..] == length + (collection + [0x00] + userKey);
    UvarintRoundTrip(|collection|, 0, collection + [0x00] + userKey);
    var pos := 1 + |length|;
    assert p[pos..] == collection + [0x00] + userKey;
    var end := pos + |collection|;
    assert p[end] == p[pos..][|collection|] && p[pos..end] == collection && p[end + 1..] == userKey;
  }

  // s starts with a varint of `used` bytes that has no zero padding.
  predicate MinimalVarint(s: bytes, used: nat) {
    used == 1 || (1 < used <= |s| && s[used - 1] != 0)
  }

  lemma {:induction false} UvarintMinimal(s: bytes, i: nat)
    requires UvarintFrom(s, i).Some?
    ensures var v := UvarintFrom(s, i).value;
            1 <= v.used <= |s|
            && (v.used > 1 && s[v.used - 1] != 0 ==> v.value >= 0x80)
            && (s[..v.used] == PutUvarint(v.value) <==> MinimalVarint(s, v.used))
  {
    var v := UvarintFrom(s, i).value;
    if s[0] < 0x80 {
      assert s[..1] == [s[0]];
    } else {
      UvarintMinimal(s[1..], i + 1);
      var w := UvarintFrom(s[1..], i + 1).value;
      assert s[..v.used] == [s[0]] + s[1..][..w.used];
      assert s[v.used - 1] == s[1..][w.used - 1];
      if v.value >= 0x80 {
        assert v.value / 0x80 == w.value && v.value % 0x80 == s[0] as int - 0x80;
        assert PutUvarint(v.value)[1..] == PutUvarint(w.value);
        assert s[..v.used][1..] == s[1..][..w.used];
      } else {
        assert |PutUvarint(v.value)| == 1;
      }
      if w.used == 1 && s[1] != 0 {
        assert w.value >= 1;
      }
    }
  }

  // Re-encoding what was decoded gives the same physical key exactly when the
  // length it carries is not padded.
  lemma EncodeDecode(p: bytes)
    requires DecodeDataKeyView(p).Some?
    ensures var d := DecodeDataKeyView(p).value;
            DataKey(d.collection, d.userKey) == p <==> MinimalVarint(p[1..], Uvarint(p[1..]).value.used)
  {
    hide PutUvarint, UvarintFrom, DecodeDataKeyView;
    DecodedLayout(p);
    var d := DecodeDataKeyView(p).value;
    var v := Uvarint(p[1..]).value;
    UvarintMinimal(p[1..], 0);
    SplitByLength(PutUvarint(v.value), p[1..][..v.used], d.collection + [0x00] + d.userKey);
    assert DataKey(d.collection, d.userKey)
           == [DATA_PREFIX] + PutUvarint(v.value) + (d.collection + [0x00] + d.userKey);
  }

  // Where the decoded parts stand in the physical key.
  lemma DecodedLayout(p: bytes)
    requires DecodeDataKeyView(p).Some?
    ensures Uvarint(p[1..]).Some?
    ensures var d := DecodeDataKeyView(p).value;
            var v := Uvarint(p[1..]).value;
            |d.collection| == v.value && v.used <= |p[1..]|
            && p == [DATA_PREFIX] + p[1..][..v.used] + (d.collection + [0x00] + d.userKey)
  {
    hide PutUvarint, UvarintFrom;
    UvarintMinimal(p[1..], 0);
    var v := Uvarint(p[1..]).value;
    var pos, end := 1 + v.used, 1 + v.used + v.value;
    assert p[pos..] == p[pos..end] + [p[end]] + p[end + 1..];
    assert p == [p[0]] + p[1..][..v.used] + p[pos..];
  }

  // A physical key decodes exactly if it is laid out as a data key, with a length
  // that may be padded.
  lemma DecodesExactly(p: bytes, c: bytes, k: bytes)
    requires |c| <= MAX_INT
    ensures DecodeDataKeyView(p) == Some(Decoded(c, k)) <==>
            exists q :: IsVarint(q) && VarintWeight(q) == |c| && p == [0x01] + q + (c + [0x00] + k)
  {
    hide UvarintFrom, IsVarint, VarintWeight;
    if DecodeDataKeyView(p) == Some(Decoded(c, k)) {
      DecodedLayout(p);
      var v := Uvarint(p[1..]).value;
      UvarintExactly(p[1..], v.value, v.used);
    }
    if q :| IsVarint(q) && VarintWeight(q) == |c| && p == [0x01] + q + (c + [0x00] + k) {
      LaidOutDecodes(p, q, c, k);
    }
  }

  lemma LaidOutDecodes(p: bytes, q: bytes, c: bytes, k: bytes)
    requires |c| <= MAX_INT && IsVarint(q) && VarintWeight(q) == |c| && p == [0x01] + q + (c + [0x00] + k)
    ensures DecodeDataKeyView(p) == Some(Decoded(c, k))
  {
    hide UvarintFrom, VarintWeight;
    var rest := c + [0x00] + k;
    assert p[1..] == q + rest && (q + rest)[..|q|] == q;
    UvarintExactly(p[1..], |c|, |q|);
    var pos := 1 + |q|;
    var end := pos + |c|;
    assert p[pos..] == rest;
    assert p[end] == rest[|c|] && p[pos..end] == rest[..|c|] && p[end + 1..] == rest[|c| + 1..];
    assert rest[..|c|] == c && rest[|c| + 1..] == k;
  }

  lemma SplitByLength(q: bytes, r: bytes, tail: bytes)
    ensures [DATA_PREFIX] + q + tail == [DATA_PREFIX] + r + tail <==> q == r
  {
    var s, t := [DATA_PREFIX] + q + tail, [DATA_PREFIX] + r + tail;
    if s == t {
      assert |q| == |r|;
      assert s[1..][..|q|] == q && t[1..][..|r|] == r;
    }
  }

  // A padded length decodes but does not re-encode to the same bytes.
  lemma PaddedLengthDecodes()
    ensures var p: bytes := [0x01, 0x81, 0x00, 0x61, 0x00];
            DecodeDataKeyView(p) == Some(Decoded([0x61], [])) && DataKey([0x61], []) != p
  {
    var p: bytes := [0x01, 0x81, 0x00, 0x61, 0x00];
    assert UvarintFrom([0x00, 0x61, 0x00], 1) == Some(Varint(0, 1));
    assert p[1..][1..] == [0x00, 0x61, 0x00];
    assert Uvarint(p[1..]) == Some(Varint(1, 2));
    assert p[3..4] == [0x61] && p[5..] == [];
    assert |DataKey([0x61], [])| == 4;
  }

  // The documented layout, for names short enough for a one-byte length and for
  // those that need two.
  lemma LayoutOfKeys(c: bytes, k: bytes)
    ensures |c| < 0x80 ==> DataKey(c, k) == [0x01, |c| as byte] + c + [0x00] + k
    ensures 0x80 <= |c| < 0x4000 ==>
              DataKey(c, k) == [0x01, (0x80 + |c| % 0x80) as byte, (|c| / 0x80) as byte] + c + [0x00] + k
    ensures CollectionMetaKey(c) == [0x00] + Ascii("collection/") + c
  {
    if |c| >= 0x80 && |c| < 0x4000 {
      assert PutUvarint(|c|) == [(0x80 + |c| % 0x80) as byte] + PutUvarint(|c| / 0x80);
    }
  }

  lemma DataKeyInjective(c: bytes, k: bytes, c': bytes, k': bytes)
    requires DataKey(c, k) == DataKey(c', k')
    ensures c == c' && k == k'
  {
    var x, y := c + [0x00] + k, c' + [0x00] + k';
    assert DataKey(c, k)[1..] == PutUvarint(|c|) + x;
    assert DataKey(c', k')[1..] == PutUvarint(|c'|) + y;
    UvarintPrefixFree(|c|, |c'|, x, y);
    assert c == x[..|c|] && c' == y[..|c|];
    assert k == x[|c| + 1..] && k' == y[|c| + 1..];
  }

  // No collection's keys can fall among another's.
  lemma BasesIsolated(c: bytes, c': bytes)
    requires IsPrefix(CollectionBase(c), CollectionBase(c'))
    ensures c == c'
  {
    PrefixSplit(CollectionBase(c), CollectionBase(c'));
    var k := CollectionBase(c')[|CollectionBase(c)|..];
    assert DataKey(c, k) == DataKey(c', []);
    DataKeyInjective(c, k, c', []);
  }

  lemma OrderPreserved(collection: bytes, a: bytes, b: bytes)
    ensures Less(DataKey(collection, a), DataKey(collection, b)) <==> Less(a, b)
  {
    LessPrepend(CollectionBase(collection), a, b);
  }
}
