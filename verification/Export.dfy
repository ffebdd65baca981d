// Exporting a collection as frames, and why the frames mean the same map.
module Exporting {
  import opened Bytes
  import opened Pebble
  import opened Views
  import opened Grammar
  import opened Batches
  import opened Stores
  import opened Folds
  import Decimal

  class Writer {
    var data: bytes

    constructor ()
      ensures data == []
    {
      data := [];
    }

    method Write(p: bytes)
      modifies this
      ensures data == old(data) + p
    {
      data := data + p;
    }
  }

  predicate FitsFrame(key: bytes, value: bytes) {
    |key| <= 64 * 1024 * 1024 && |value| <= 64 * 1024 * 1024
  }

  // Writes the header, the key and the value; writes nothing if either is too large.
  method WriteFramePut(w: Writer, key: bytes, value: bytes) returns (ok: bool)
    modifies w
    ensures ok == FitsFrame(key, value)
    ensures w.data == if ok then old(w.data) + PrintFrame(key, value) else old(w.data)
  {
    if |key| > MAX_RECORD_BYTES || |value| > MAX_RECORD_BYTES {
      return false;
    }
    var header: bytes := [OP_PUT, SPACE];
    header := header + Decimal.Print(|key|);
    header := header + [SPACE];
    header := header + Decimal.Print(|value|);
    header := header + [NEWLINE];
    assert header == FrameHeader(key, value);
    w.Write(header);
    w.Write(key);
    w.Write(value);
    return true;
  }

  const WHOLE_COLLECTION := ScanOptions([], None, None, 0, false, false)

  lemma WholeSelection(view: KV, o: ScanOptions)
    requires o.prefix == [] && o.start.None? && o.end.None?
    ensures SelectedKeys(view, o) == view.Keys
  {
    forall k ensures IsPrefix([], k) {
      assert k[..0] == [];
    }
  }

  function PrintAll(rs: seq<Record>): bytes {
    if rs == [] then [] else PrintAll(rs[..|rs| - 1]) + PrintFrame(rs[|rs| - 1].key, rs[|rs| - 1].value)
  }

  predicate AllFit(rs: seq<Record>) {
    forall i :: 0 <= i < |rs| ==> FitsFrame(rs[i].key, rs[i].value)
  }

  // Exports every record in key order; fails exactly when one does not fit.
  method Export(store: Store, c: bytes) returns (err: Option<StoreError>, ok: bool, out: bytes)
    ensures err == if ValidateCollection(store.env.rule, c) then None else Some(InvalidName)
    ensures err.None? ==> ok == AllFit(ScanSpec(View(store.db.data, c), WHOLE_COLLECTION))
    ensures err.None? && ok ==> out == PrintAll(ScanSpec(View(store.db.data, c), WHOLE_COLLECTION))
  {
    hide ScanSpec, View, PrintAll, PrintFrame, FitsFrame, AllFit;
    var rs;
    err, rs := store.Scan(c, WHOLE_COLLECTION);
    if err.Some? {
      return err, false, [];
    }
    var w := new Writer();
    ExportNothing();
    assert rs[..0] == [];
    for i := 0 to |rs|
      invariant w.data == PrintAll(rs[..i])
      invariant AllFit(rs[..i])
    {
      ExportStep(rs, i);
      ok := WriteFramePut(w, rs[i].key, rs[i].value);
      if !ok {
        return None, false, w.data;
      }
    }
    assert rs[..|rs|] == rs;
    return None, true, w.data;
  }

  lemma ExportNothing()
    ensures PrintAll([]) == [] && AllFit([])
  {
  }

  lemma ExportStep(rs: seq<Record>, i: nat)
    requires i < |rs|
    ensures PrintAll(rs[..i + 1]) == PrintAll(rs[..i]) + PrintFrame(rs[i].key, rs[i].value)
    ensures AllFit(rs[..i]) ==> (AllFit(rs[..i + 1]) <==> FitsFrame(rs[i].key, rs[i].value))
    ensures !FitsFrame(rs[i].key, rs[i].value) ==> !AllFit(rs)
  {
    hide PrintFrame, FitsFrame;
    assert rs[..i + 1][..i] == rs[..i];
    if AllFit(rs[..i]) && FitsFrame(rs[i].key, rs[i].value) {
      forall j | 0 <= j < i ensures FitsFrame(rs[j].key, rs[j].value) {
        assert rs[..i][j] == rs[j];
      }
    }
    if AllFit(rs[..i + 1]) {
      assert rs[..i + 1][i] == rs[i];
    }
  }

  // ---- parsing what was printed ----

  ghost predicate SamePuts(ops: seq<ApplyRecord>, rs: seq<Record>) {
    |ops| == |rs|
    && forall i :: 0 <= i < |ops| ==> !ops[i].delete && ops[i].key == rs[i].key && ops[i].value == rs[i].value
  }

  lemma {:induction false} PrintAllFront(rs: seq<Record>)
    requires rs != []
    ensures PrintAll(rs) == PrintFrame(rs[0].key, rs[0].value) + PrintAll(rs[1..])
  {
    hide PrintFrame;
    if |rs| == 1 {
      assert rs[..0] == [] && rs[1..] == [];
    } else {
      var last := |rs| - 1;
      var front, end := PrintFrame(rs[0].key, rs[0].value), PrintFrame(rs[last].key, rs[last].value);
      calc {
        PrintAll(rs);
        PrintAll(rs[..last]) + end;
        { PrintAllFront(rs[..last]); assert rs[..last][1..] == rs[1..][..last - 1]; }
        front + PrintAll(rs[1..][..last - 1]) + end;
        front + (PrintAll(rs[1..][..last - 1]) + end);
        { PrintAllLast(rs[1..]); }
        front + PrintAll(rs[1..]);
      }
    }
  }

  lemma PrintAllLast(rs: seq<Record>)
    requires rs != []
    ensures var last := |rs| - 1;
            PrintAll(rs) == PrintAll(rs[..last]) + PrintFrame(rs[last].key, rs[last].value)
  {
  }

  lemma {:induction false} PrintedParses(rs: seq<Record>, line: nat, total: nat)
    requires AllFit(rs)
    ensures var s := ParseStream(Frame, PrintAll(rs), line, total);
            s.error == None && SamePuts(s.records, rs)
    decreases |rs|
  {
    hide FrameStep, PrintFrame;
    if rs != [] {
      var b, rest := PrintFrame(rs[0].key, rs[0].value), PrintAll(rs[1..]);
      PrintAllFront(rs);
      PrintThenParse(rs[0].key, rs[0].value, rest);
      assert (b + rest)[|b|..] == rest;
      PrintedParses(rs[1..], line + 1, total + |b|);
      ParsePrepended(rs, line, total, |b|);
    }
  }

  lemma ParsePrepended(rs: seq<Record>, line: nat, total: nat, n: nat)
    requires rs != [] && n <= |PrintAll(rs)| && PrintAll(rs)[n..] == PrintAll(rs[1..])
    requires FrameStep(PrintAll(rs)) == Item(false, rs[0].key, rs[0].value, n)
    requires var s := ParseStream(Frame, PrintAll(rs[1..]), line + 1, total + n);
             s.error == None && SamePuts(s.records, rs[1..])
    ensures var s := ParseStream(Frame, PrintAll(rs), line, total);
            s.error == None && SamePuts(s.records, rs)
  {
    hide FrameStep, PrintAll;
    var rest := ParseStream(Frame, PrintAll(rs[1..]), line + 1, total + n);
    var s := ParseStream(Frame, PrintAll(rs), line, total);
    assert s == Prepend(ApplyRecord(false, rs[0].key, rs[0].value, line + 1, total + n), rest);
    forall i | 0 <= i < |s.records|
      ensures !s.records[i].delete && s.records[i].key == rs[i].key && s.records[i].value == rs[i].value
    {
      assert i > 0 ==> s.records[i] == rest.records[i - 1] && rs[i] == rs[1..][i - 1];
    }
  }

  // ---- folding what was parsed ----

  // Applying puts of distinct keys adds exactly those keys.
  lemma {:induction false} FoldPuts(m: KV, view: KV, ops: seq<ApplyRecord>, rs: seq<Record>)
    requires SamePuts(ops, rs)
    requires forall i :: 0 <= i < |rs| ==> rs[i].key in view && rs[i].value == view[rs[i].key]
    ensures Fold(m, ops) == m + Restrict(view, KeysOf(rs))
  {
    if ops != [] {
      var last := |ops| - 1;
      assert SamePuts(ops[..last], rs[..last]);
      FoldPuts(m, view, ops[..last], rs[..last]);
      KeysOfLast(rs);
      RestrictAdd(m, view, KeysOf(rs[..last]), rs[last].key);
    }
  }

  function Restrict(view: KV, keys: set<bytes>): KV {
    map k | k in view && k in keys :: view[k]
  }

  lemma RestrictAdd(m: KV, view: KV, keys: set<bytes>, k: bytes)
    requires k in view
    ensures m + Restrict(view, keys + {k}) == (m + Restrict(view, keys))[k := view[k]]
  {
  }

  lemma KeysOfLast(rs: seq<Record>)
    requires rs != []
    ensures KeysOf(rs) == KeysOf(rs[..|rs| - 1]) + {rs[|rs| - 1].key}
  {
  }

  function KeysOf(rs: seq<Record>): set<bytes> {
    set i | 0 <= i < |rs| :: rs[i].key
  }

  lemma WholeScanKeys(view: KV)
    ensures var rs := ScanSpec(view, WHOLE_COLLECTION);
            KeysOf(rs) == view.Keys
            && forall i :: 0 <= i < |rs| ==> rs[i].key in view && rs[i].value == view[rs[i].key]
  {
    var keys := Selection(view, WHOLE_COLLECTION);
    var rs := ScanSpec(view, WHOLE_COLLECTION);
    SelectionInView(view, WHOLE_COLLECTION);
    WholeSelection(view, WHOLE_COLLECTION);
    forall i | 0 <= i < |rs| ensures rs[i].key in view && rs[i].value == view[rs[i].key] {
      assert keys[i] in keys;
    }
    forall k | k in view ensures k in KeysOf(rs) {
      assert k in Elements(Directed(view, WHOLE_COLLECTION));
      var i :| 0 <= i < |keys| && keys[i] == k;
      assert rs[i].key == k;
    }
  }

  // The exported frames, parsed and applied to any map, overlay the exported map.
  lemma ExportMeansMap(view: KV, m: KV)
    requires AllFit(ScanSpec(view, WHOLE_COLLECTION))
    ensures var s := ParseStream(Frame, PrintAll(ScanSpec(view, WHOLE_COLLECTION)), 0, 0);
            s.error == None && Fold(m, s.records) == m + view
            && Accepted(s.records) == (if [] in view then [] else s.records)
            && ([] in view ==> s.records != [])
  {
    hide ScanSpec, ParseStream, PrintAll, Fold, Accepted;
    var rs := ScanSpec(view, WHOLE_COLLECTION);
    var s := ParseStream(Frame, PrintAll(rs), 0, 0);
    PrintedParses(rs, 0, 0);
    WholeScanKeys(view);
    FoldPuts(m, view, s.records, rs);
    AcceptedIffKeys(s.records);
    assert Restrict(view, KeysOf(rs)) == view;
    assert (exists i :: 0 <= i < |s.records| && s.records[i].key == []) <==> [] in KeysOf(rs);
    if [] in view {
      EmptyKeyFirst(view);
      AcceptedNone(s.records);
    }
  }

  // An empty key is exported first, so nothing before it is accepted.
  lemma EmptyKeyFirst(view: KV)
    requires [] in view
    ensures var rs := ScanSpec(view, WHOLE_COLLECTION); rs != [] && rs[0].key == []
  {
    hide ScanSpec;
    var rs := ScanSpec(view, WHOLE_COLLECTION);
    WholeScanKeys(view);
    ForwardScan(view, WHOLE_COLLECTION);
    var i :| 0 <= i < |rs| && rs[i].key == [];
    assert ScannedKeys(rs)[i] == [];
    assert i > 0 ==> Less(ScannedKeys(rs)[0], []);
  }

  lemma AcceptedNone(rs: seq<ApplyRecord>)
    requires rs == [] || rs[0].key == []
    ensures Accepted(rs) == []
  {
  }

  lemma {:induction false} AcceptedIffKeys(rs: seq<ApplyRecord>)
    ensures Accepted(rs) == rs <==> forall i :: 0 <= i < |rs| ==> rs[i].key != []
  {
    if rs != [] && rs[0].key != [] {
      AcceptedIffKeys(rs[1..]);
      assert rs == [rs[0]] + rs[1..];
      assert Accepted(rs)[1..] == Accepted(rs[1..]);
    }
  }

  // A record fits exactly when its key and value do, so export fails exactly
  // when the collection holds something too large.
  lemma AllFitMeans(view: KV)
    ensures AllFit(ScanSpec(view, WHOLE_COLLECTION)) <==> forall k :: k in view ==> FitsFrame(k, view[k])
  {
    hide ScanSpec, FitsFrame;
    WholeScanKeys(view);
    var rs := ScanSpec(view, WHOLE_COLLECTION);
    if AllFit(rs) {
      forall k | k in view ensures FitsFrame(k, view[k]) {
        assert k in KeysOf(rs);
        var i :| 0 <= i < |rs| && rs[i].key == k;
      }
    }
  }
}
