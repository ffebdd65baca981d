// Sorting by a byte-string key, in place and stably, the way slices.SortStableFunc
// does it with insertion steps, and what a stable sort determines.
module Sorting {
  import opened Bytes

  // The elements whose key is k, in their order of appearance.
  function OnKey<T>(s: seq<T>, key: T -> bytes, k: bytes): seq<T> {
    if s == [] then []
    else (if key(s[0]) == k then [s[0]] else []) + OnKey(s[1..], key, k)
  }

  ghost predicate SortedBy<T>(s: seq<T>, key: T -> bytes) {
    forall i, j :: 0 <= i < j < |s| ==> AtMost(key(s[i]), key(s[j]))
  }

  // t has the elements of s, and equal keys keep their order.
  ghost predicate SameByKey<T>(s: seq<T>, t: seq<T>, key: T -> bytes) {
    forall k :: OnKey(s, key, k) == OnKey(t, key, k)
  }

  lemma {:induction false} OnKeyConcat<T>(s: seq<T>, t: seq<T>, key: T -> bytes, k: bytes)
    ensures OnKey(s + t, key, k) == OnKey(s, key, k) + OnKey(t, key, k)
  {
    if s == [] {
      assert s + t == t;
    } else {
      assert (s + t)[1..] == s[1..] + t;
      OnKeyConcat(s[1..], t, key, k);
      Associates(if key(s[0]) == k then [s[0]] else [], OnKey(s[1..], key, k), OnKey(t, key, k));
    }
  }

  lemma SwapKeepsOrder<T>(s: seq<T>, j: nat, key: T -> bytes)
    requires 0 < j < |s| && key(s[j]) != key(s[j - 1])
    ensures SameByKey(s, s[j := s[j - 1]][j - 1 := s[j]], key)
  {
    var x, y := s[j - 1], s[j];
    var t := s[j := x][j - 1 := y];
    forall k ensures OnKey(s, key, k) == OnKey(t, key, k) {
      var left, right := s[..j - 1], s[j + 1..];
      assert s == left + ([x, y] + right) && t == left + ([y, x] + right);
      OnKeyConcat(left, [x, y] + right, key, k);
      OnKeyConcat(left, [y, x] + right, key, k);
      OnKeyConcat([x, y], right, key, k);
      OnKeyConcat([y, x], right, key, k);
      assert [x, y][1..] == [y] && [y, x][1..] == [x];
    }
  }

  method StableSort<T>(a: array<T>, key: T -> bytes)
    modifies a
    ensures SortedBy(a[..], key)
    ensures SameByKey(old(a[..]), a[..], key)
  {
    var i := 0;
    while i < a.Length
      invariant 0 <= i <= a.Length
      invariant forall p, q :: 0 <= p < q < i ==> AtMost(key(a[p]), key(a[q]))
      invariant SameByKey(old(a[..]), a[..], key)
    {
      var j := i;
      while j > 0 && Less(key(a[j]), key(a[j - 1]))
        invariant 0 <= j <= i
        invariant forall p, q :: 0 <= p < q <= i && p != j && q != j ==> AtMost(key(a[p]), key(a[q]))
        invariant forall q :: j < q <= i ==> AtMost(key(a[j]), key(a[q]))
        invariant SameByKey(old(a[..]), a[..], key)
      {
        LessAsymmetric(key(a[j]), key(a[j - 1]));
        SwapKeepsOrder(a[..], j, key);
        a[j], a[j - 1] := a[j - 1], a[j];
        j := j - 1;
      }
      forall p | 0 <= p < j ensures AtMost(key(a[p]), key(a[j])) {
        if p < j - 1 {
          AtMostTransitive(key(a[p]), key(a[j - 1]), key(a[j]));
        }
      }
      i := i + 1;
    }
  }

  lemma {:induction false} OnKeyMember<T>(s: seq<T>, key: T -> bytes, k: bytes)
    ensures OnKey(s, key, k) != [] <==> exists i :: 0 <= i < |s| && key(s[i]) == k
  {
    if s != [] {
      OnKeyMember(s[1..], key, k);
      if i :| 0 <= i < |s| && key(s[i]) == k && i > 0 {
        assert key(s[1..][i - 1]) == k;
      }
      if i :| 0 <= i < |s[1..]| && key(s[1..][i]) == k {
        assert key(s[i + 1]) == k;
      }
    }
  }

  lemma NonemptyAlike<T>(s: seq<T>, t: seq<T>, key: T -> bytes)
    requires SameByKey(t, s, key)
    ensures s != [] ==> t != []
  {
    if s != [] {
      assert OnKey(t, key, key(s[0])) == OnKey(s, key, key(s[0]));
    }
  }

  lemma OnKeyTail<T>(s: seq<T>, key: T -> bytes, k: bytes)
    requires s != []
    ensures OnKey(s[1..], key, k) == if key(s[0]) == k then OnKey(s, key, k)[1..] else OnKey(s, key, k)
  {
  }

  // Sortedness and stability together leave one result only, so nothing depends
  // on which stable sorting algorithm is used.
  lemma {:induction false} StableSortUnique<T>(s: seq<T>, t: seq<T>, key: T -> bytes)
    requires SortedBy(s, key) && SortedBy(t, key) && SameByKey(s, t, key)
    ensures s == t
  {
    NonemptyAlike(t, s, key);
    if s != [] {
      var k := key(s[0]);
      assert OnKey(t, key, k) == OnKey(s, key, k) != [];
      NonemptyAlike(s, t, key);
      FirstKeyAtMost(s, t, key);
      FirstKeyAtMost(t, s, key);
      LessTotal(key(s[0]), key(t[0]));
      assert OnKey(s, key, k)[0] == s[0] && OnKey(t, key, k)[0] == t[0];
      forall k ensures OnKey(s[1..], key, k) == OnKey(t[1..], key, k) {
        assert OnKey(s, key, k) == OnKey(t, key, k);
        OnKeyTail(s, key, k);
        OnKeyTail(t, key, k);
      }
      StableSortUnique(s[1..], t[1..], key);
      assert s == [s[0]] + s[1..] && t == [t[0]] + t[1..];
    }
  }

  lemma FirstKeyAtMost<T>(s: seq<T>, t: seq<T>, key: T -> bytes)
    requires s != [] && t != [] && SortedBy(s, key) && SameByKey(s, t, key)
    ensures AtMost(key(s[0]), key(t[0]))
  {
    var k := key(t[0]);
    assert OnKey(s, key, k) == OnKey(t, key, k);
    OnKeyMember(t, key, k);
    OnKeyMember(s, key, k);
    var i :| 0 <= i < |s| && key(s[i]) == k;
    if i == 0 {
      LessIrreflexive(k);
    }
  }

  // ---- counting duplicates in a sorted sample ----

  function AdjacentEqual(s: seq<bytes>): nat {
    if |s| < 2 then 0 else (if s[0] == s[1] then 1 else 0) + AdjacentEqual(s[1..])
  }

  lemma {:induction false} AdjacentEqualAppend(s: seq<bytes>, x: bytes)
    requires s != []
    ensures AdjacentEqual(s + [x]) == AdjacentEqual(s) + if s[|s| - 1] == x then 1 else 0
  {
    assert (s + [x])[1..] == s[1..] + [x];
    if |s| > 1 {
      AdjacentEqualAppend(s[1..], x);
    }
  }

  // In sorted order equal keys are adjacent, so the count measures distinctness.
  lemma {:induction false} DuplicatesMeasureDistinctness(s: seq<bytes>)
    requires SortedBy(s, x => x)
    ensures AdjacentEqual(s) + |Elements(s)| == |s|
  {
    if s == [] {
      assert Elements(s) == {};
    } else {
      var t := s[1..];
      DuplicatesMeasureDistinctness(t);
      assert Elements(s) == {s[0]} + Elements(t) by {
        forall x | x in t ensures x in s {}
      }
      if t == [] {
        assert Elements(s) == {s[0]};
      } else if s[0] == t[0] {
        assert Elements(s) == Elements(t);
      } else {
        LessTotal(s[0], s[1]);
        assert forall i :: 1 < i < |s| ==> AtMost(s[1], s[i]);
        assert s[0] !in t;
      }
    }
  }

  lemma SameByKeySameElements(s: seq<bytes>, t: seq<bytes>)
    requires SameByKey(s, t, x => x)
    ensures Elements(s) == Elements(t)
  {
    forall x ensures x in s <==> x in t {
      OnKeyMember(s, x => x, x);
      OnKeyMember(t, x => x, x);
      assert OnKey(s, x => x, x) == OnKey(t, x => x, x);
    }
  }
}
