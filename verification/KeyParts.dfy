// Compound keys: the string values of several fields joined by a one-byte
// separator that none of them may contain.
module KeyParts {
  import opened Bytes
  import Grammar

  // What looking up a field in the JSON object gave.
  datatype FieldValue = Missing | NotString | Text(s: bytes)

  datatype KeyError = NoFields | BadSeparator | MissingField | InvalidField | ContainsSeparator

  datatype Extracted<T> = Key(value: T) | Failed(error: KeyError)

  predicate Contains(s: bytes, sep: bytes)
    requires |sep| == 1
  {
    sep[0] in s
  }

  // The parts of the first fields, or the first field's error.
  function Collect(values: seq<FieldValue>, sep: bytes): Extracted<seq<bytes>> {
    if values == [] then Key([])
    else
      match Collect(values[..|values| - 1], sep)
      case Failed(e) => Failed(e)
      case Key(parts) =>
        match values[|values| - 1]
        case Missing => Failed(MissingField)
        case NotString => Failed(InvalidField)
        case Text(s) => if |sep| == 1 && Contains(s, sep) then Failed(ContainsSeparator) else Key(parts + [s])
  }

  function Join(parts: seq<bytes>, sep: bytes): bytes {
    if parts == [] then []
    else if |parts| == 1 then parts[0]
    else parts[0] + sep + Join(parts[1..], sep)
  }

  // A single field needs no separator and may contain anything.
  function Extract(values: seq<FieldValue>, sep: bytes): Extracted<bytes> {
    if values == [] then Failed(NoFields)
    else if |values| > 1 && |sep| != 1 then Failed(BadSeparator)
    else
      match Collect(values, if |values| > 1 then sep else [])
      case Failed(e) => Failed(e)
      case Key(parts) => Key(Join(parts, sep))
  }

  method ExtractKey(values: seq<FieldValue>, sep: bytes) returns (r: Extracted<bytes>)
    ensures r == Extract(values, sep)
  {
    if |values| == 0 {
      return Failed(NoFields);
    }
    if |values| > 1 && |sep| != 1 {
      return Failed(BadSeparator);
    }
    ghost var guard := if |values| > 1 then sep else [];
    var parts: seq<bytes> := [];
    for i := 0 to |values|
      invariant Collect(values[..i], guard) == Key(parts)
    {
      assert values[..i + 1][..i] == values[..i];
      match values[i] {
        case Missing =>
          CollectStops(values, guard, i + 1);
          return Failed(MissingField);
        case NotString =>
          CollectStops(values, guard, i + 1);
          return Failed(InvalidField);
        case Text(s) =>
          if |values| > 1 && Contains(s, sep) {
            CollectStops(values, guard, i + 1);
            return Failed(ContainsSeparator);
          }
          parts := parts + [s];
      }
    }
    assert values[..|values|] == values;
    return Key(Join(parts, sep));
  }

  lemma {:induction false} CollectStops(values: seq<FieldValue>, sep: bytes, i: nat)
    requires i <= |values| && Collect(values[..i], sep).Failed?
    ensures Collect(values, sep) == Collect(values[..i], sep)
    decreases |values|
  {
    if i == |values| {
      assert values[..i] == values;
    } else {
      var init := values[..|values| - 1];
      assert init[..i] == values[..i];
      CollectStops(init, sep, i);
    }
  }

  // Each field contributes its text unchanged, and compound parts hold no separator.
  lemma {:induction false} CollectedParts(values: seq<FieldValue>, sep: bytes)
    requires Collect(values, sep).Key?
    ensures var parts := Collect(values, sep).value;
            |parts| == |values|
            && forall i :: 0 <= i < |values| ==> values[i] == Text(parts[i]) && (|sep| == 1 ==> sep[0] !in parts[i])
  {
    if values != [] {
      CollectedParts(values[..|values| - 1], sep);
    }
  }

  // A text cut at every separator.
  function SplitAll(s: bytes, d: byte): (r: seq<bytes>)
    ensures r != []
  {
    if s == [] then [[]]
    else
      var rest := SplitAll(s[1..], d);
      if s[0] == d then [[]] + rest else [[s[0]] + rest[0]] + rest[1..]
  }

  lemma {:induction false} SplitFront(p: bytes, d: byte, s: bytes)
    requires d !in p
    ensures SplitAll(p + [d] + s, d) == [p] + SplitAll(s, d)
    ensures SplitAll(p, d) == [p]
  {
    if p == [] {
      assert [] + [d] + s == [d] + s && ([d] + s)[1..] == s;
    } else {
      SplitFront(p[1..], d, s);
      assert (p + [d] + s)[1..] == p[1..] + [d] + s;
      assert p == [p[0]] + p[1..];
    }
  }

  // Cutting a joined key at its separators gives the fields back.
  lemma {:induction false} SplitJoin(parts: seq<bytes>, d: byte)
    requires parts != [] && forall i :: 0 <= i < |parts| ==> d !in parts[i]
    ensures SplitAll(Join(parts, [d]), d) == parts
  {
    hide SplitAll, Join;
    if |parts| == 1 {
      JoinOne(parts, [d]);
      SplitFront(parts[0], d, []);
    } else {
      SplitJoin(parts[1..], d);
      JoinCons(parts, [d]);
      SplitFront(parts[0], d, Join(parts[1..], [d]));
      assert [parts[0]] + parts[1..] == parts;
    }
  }

  lemma JoinCons(parts: seq<bytes>, sep: bytes)
    requires |parts| > 1
    ensures Join(parts, sep) == parts[0] + sep + Join(parts[1..], sep)
  {
  }

  // What becomes of the fields: the first one that is no text without the
  // separator decides the error, and otherwise the key is their texts joined.
  lemma ExtractMeans(values: seq<FieldValue>, sep: bytes, i: nat)
    ensures values == [] ==> Extract(values, sep) == Failed(NoFields)
    ensures |values| > 1 && |sep| != 1 ==> Extract(values, sep) == Failed(BadSeparator)
    ensures |values| == 1 && values[0].Text? ==> Extract(values, sep) == Key(values[0].s)
    ensures i < |values| && (|values| > 1 ==> |sep| == 1)
            && (forall j :: 0 <= j < i ==> values[j].Text? && (|values| > 1 ==> sep[0] !in values[j].s)) ==>
              (values[i].Missing? ==> Extract(values, sep) == Failed(MissingField))
              && (values[i].NotString? ==> Extract(values, sep) == Failed(InvalidField))
              && (values[i].Text? && |values| > 1 && sep[0] in values[i].s ==>
                    Extract(values, sep) == Failed(ContainsSeparator))
    ensures |values| > 1 && |sep| == 1
            && (forall j :: 0 <= j < |values| ==> values[j].Text? && sep[0] !in values[j].s) ==>
              Extract(values, sep).Key?
              && SplitAll(Extract(values, sep).value, sep[0]) == Texts(values)
  {
    hide SplitAll, Join;
    if values != [] && (|values| > 1 ==> |sep| == 1) {
      var guard := if |values| > 1 then sep else [];
      if i < |values| && forall j :: 0 <= j < i ==> Good(values[j], guard) {
        CollectGood(values[..i], guard);
        assert values[..i + 1][..i] == values[..i];
        if !Good(values[i], guard) {
          CollectStops(values, guard, i + 1);
        }
      }
      if forall j :: 0 <= j < |values| ==> Good(values[j], guard) {
        CollectGood(values, guard);
        if |values| > 1 {
          assert sep == [sep[0]];
          SplitJoin(Texts(values), sep[0]);
        } else {
          JoinOne(Texts(values), sep);
        }
      }
    }
  }

  predicate Good(v: FieldValue, sep: bytes) {
    v.Text? && (|sep| == 1 ==> sep[0] !in v.s)
  }

  function Texts(values: seq<FieldValue>): (r: seq<bytes>)
    ensures |r| == |values|
  {
    seq(|values|, i requires 0 <= i < |values| => if values[i].Text? then values[i].s else [])
  }

  lemma {:induction false} CollectGood(values: seq<FieldValue>, sep: bytes)
    requires forall j :: 0 <= j < |values| ==> Good(values[j], sep)
    ensures Collect(values, sep) == Key(Texts(values))
  {
    if values != [] {
      CollectGood(values[..|values| - 1], sep);
      assert Texts(values) == Texts(values[..|values| - 1]) + [values[|values| - 1].s];
    }
  }

  lemma JoinOne(parts: seq<bytes>, sep: bytes)
    requires |parts| == 1
    ensures Join(parts, sep) == parts[0]
  {
  }

  lemma {:induction false} JoinInjective(p: seq<bytes>, q: seq<bytes>, sep: bytes)
    requires |p| == |q| && Join(p, sep) == Join(q, sep)
    requires |p| > 1 ==> |sep| == 1 && forall i :: 0 <= i < |p| ==> sep[0] !in p[i] && sep[0] !in q[i]
    ensures p == q
  {
    if |p| == 1 {
      assert p == [p[0]] && q == [q[0]];
    } else if |p| > 1 {
      var d := sep[0];
      var x, y := Join(p[1..], sep), Join(q[1..], sep);
      assert sep == [d];
      Grammar.IndexOfConcat(p[0], d, x);
      Grammar.IndexOfConcat(q[0], d, y);
      assert (p[0] + [d] + x)[..|p[0]|] == p[0] && (p[0] + [d] + x)[|p[0]| + 1..] == x;
      assert (q[0] + [d] + y)[..|q[0]|] == q[0] && (q[0] + [d] + y)[|q[0]| + 1..] == y;
      JoinInjective(p[1..], q[1..], sep);
      assert p == [p[0]] + p[1..] && q == [q[0]] + q[1..];
    }
  }

  // Records with the same key had the same field values.
  lemma CompoundKeysUnambiguous(v: seq<FieldValue>, w: seq<FieldValue>, sep: bytes)
    requires |v| == |w| && Extract(v, sep).Key? && Extract(v, sep) == Extract(w, sep)
    ensures v == w
  {
    var guard := if |v| > 1 then sep else [];
    CollectedParts(v, guard);
    CollectedParts(w, guard);
    JoinInjective(Collect(v, guard).value, Collect(w, guard).value, sep);
  }
}
