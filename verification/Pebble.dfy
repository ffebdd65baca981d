// The database under the store: one ordered map from byte strings to byte
// strings, changed only by atomic batch commits.
module Pebble {
  import opened Bytes

  type KV = map<bytes, bytes>

  datatype Mutation =
    | Set(key: bytes, value: bytes)
    | Delete(key: bytes)
    | DeleteRange(lower: bytes, upper: bytes)

  function ApplyOne(m: KV, op: Mutation): KV {
    match op
    case Set(k, v) => m[k := v]
    case Delete(k) => m - {k}
    case DeleteRange(lower, upper) => map p | p in m && !Within(p, lower, Some(upper)) :: m[p]
  }

  // The mutations of a batch take effect in order.
  function ApplyAll(m: KV, ops: seq<Mutation>): KV {
    if ops == [] then m else ApplyOne(ApplyAll(m, ops[..|ops| - 1]), ops[|ops| - 1])
  }

  lemma ApplyNothing(m: KV)
    ensures ApplyAll(m, []) == m
  {
  }

  lemma ApplySnoc(m: KV, ops: seq<Mutation>, op: Mutation)
    ensures ApplyAll(m, ops + [op]) == ApplyOne(ApplyAll(m, ops), op)
  {
    assert (ops + [op])[..|ops|] == ops;
  }

  // ---- point operations ----

  type PointOp = op: Mutation | !op.DeleteRange? witness Delete([])

  function Lookup(m: KV, p: bytes): Option<bytes> {
    if p in m then Some(m[p]) else None
  }

  // The last operation on p.
  function LastOn(ops: seq<PointOp>, p: bytes): Option<PointOp> {
    if ops == [] then None
    else
      match LastOn(ops[1..], p)
      case Some(op) => Some(op)
      case None => if ops[0].key == p then Some(ops[0]) else None
  }

  lemma {:induction false} LastOnSnoc(ops: seq<PointOp>, op: PointOp, p: bytes)
    ensures LastOn(ops + [op], p) == if op.key == p then Some(op) else LastOn(ops, p)
  {
    if ops != [] {
      assert (ops + [op])[1..] == ops[1..] + [op];
      LastOnSnoc(ops[1..], op, p);
    }
  }

  // After a batch each key holds what the last operation on it left there.
  lemma {:induction false} ApplyAllAt(m: KV, ops: seq<PointOp>, p: bytes)
    ensures Lookup(ApplyAll(m, ops), p) ==
            match LastOn(ops, p)
            case None => Lookup(m, p)
            case Some(Set(_, v)) => Some(v)
            case Some(Delete(_)) => None
  {
    if ops != [] {
      var init, op := ops[..|ops| - 1], ops[|ops| - 1];
      assert ops == init + [op];
      ApplyAllAt(m, init, p);
      LastOnSnoc(init, op, p);
    }
  }

  lemma SameLookups(m: KV, n: KV)
    requires forall p :: Lookup(m, p) == Lookup(n, p)
    ensures m == n
  {
    forall p ensures p in m <==> p in n {
      assert Lookup(m, p) == Lookup(n, p);
    }
    forall p | p in m ensures m[p] == n[p] {
      assert Lookup(m, p) == Lookup(n, p);
    }
  }

  // Only the last operation on each key matters to a batch.
  lemma SameLastSameEffect(m: KV, s: seq<PointOp>, t: seq<PointOp>)
    requires forall p :: LastOn(s, p) == LastOn(t, p)
    ensures ApplyAll(m, s) == ApplyAll(m, t)
  {
    forall p ensures Lookup(ApplyAll(m, s), p) == Lookup(ApplyAll(m, t), p) {
      ApplyAllAt(m, s, p);
      ApplyAllAt(m, t, p);
    }
    SameLookups(ApplyAll(m, s), ApplyAll(m, t));
  }

  // ---- the database object ----

  class Db {
    var data: KV
    // The contents at creation and after each commit, oldest first: what another
    // process could find if this one stopped.
    var commits: seq<KV>

    // Nothing is visible that was not committed.
    ghost predicate Logged()
      reads this
    {
      commits != [] && data == commits[|commits| - 1]
    }

    constructor ()
      ensures data == map[] && commits == [map[]]
    {
      data, commits := map[], [map[]];
    }

    // A crash: the latest commits do not survive.
    method Lose(lost: nat)
      requires Logged()
      modifies this
      ensures Logged()
      ensures commits == old(commits)[..if lost < |old(commits)| then |old(commits)| - lost else 1]
    {
      var kept := if lost < |commits| then |commits| - lost else 1;
      commits := commits[..kept];
      data := commits[kept - 1];
    }

    method Commit(ops: seq<Mutation>)
      modifies this
      ensures data == ApplyAll(old(data), ops)
      ensures commits == old(commits) + [data]
    {
      var next := data;
      for i := 0 to |ops|
        invariant next == ApplyAll(data, ops[..i])
        invariant data == old(data) && commits == old(commits)
      {
        assert ops[..i + 1] == ops[..i] + [ops[i]];
        ApplySnoc(data, ops[..i], ops[i]);
        next := ApplyOne(next, ops[i]);
      }
      assert ops[..|ops|] == ops;
      data := next;
      commits := commits + [data];
    }

    // The keys a bounded iterator visits from First to its end; Last and Prev
    // visit the same keys backwards.
    method IterKeys(lower: bytes, upper: bytes) returns (keys: seq<bytes>)
      ensures keys == Sorted(InBounds(data, lower, upper))
    {
      var todo := set p | p in data && Within(p, lower, Some(upper));
      keys := [];
      while todo != {}
        invariant StrictlyAscending(keys)
        invariant Elements(keys) + todo == InBounds(data, lower, upper)
        invariant Elements(keys) !! todo
        decreases todo
      {
        var p :| p in todo;
        assert p !in keys by { assert p !in Elements(keys); }
        ghost var before := keys;
        keys := InsertKey(keys, p);
        todo := todo - {p};
      }
      AscendingUnique(keys, Sorted(InBounds(data, lower, upper)));
    }
  }

  ghost function InBounds(data: KV, lower: bytes, upper: bytes): set<bytes> {
    set p | p in data && Within(p, lower, Some(upper))
  }

  method InsertKey(keys: seq<bytes>, p: bytes) returns (r: seq<bytes>)
    requires StrictlyAscending(keys) && p !in keys
    ensures StrictlyAscending(r) && Elements(r) == Elements(keys) + {p}
  {
    var i := 0;
    while i < |keys| && Less(keys[i], p)
      invariant 0 <= i <= |keys|
      invariant forall j :: 0 <= j < i ==> Less(keys[j], p)
    {
      i := i + 1;
    }
    forall j | i <= j < |keys| ensures Less(p, keys[j]) {
      LessTotal(p, keys[i]);
      if j > i {
        LessTransitive(p, keys[i], keys[j]);
      }
    }
    r := keys[..i] + [p] + keys[i..];
    assert forall x :: x in r <==> x in keys || x == p by {
      assert keys == keys[..i] + keys[i..];
    }
  }
}
