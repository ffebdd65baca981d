// Byte strings and their lexicographic order, the order in which Pebble keeps keys.
module Bytes {
  newtype byte = x: int | 0 <= x < 0x100

  type bytes = seq<byte>

  datatype Option<+T> = None | Some(value: T)

  // The largest Go int on a 64-bit platform: no Go string or slice is longer.
  const MAX_INT: int := 0x7fff_ffff_ffff_ffff

  predicate IsPrefix(p: bytes, s: bytes) {
    |p| <= |s| && s[..|p|] == p
  }

  // Less(a, b) is bytes.Compare(a, b) < 0.
  predicate Less(a: bytes, b: bytes) {
    b != [] && (a == [] || a[0] < b[0] || (a[0] == b[0] && Less(a[1..], b[1..])))
  }

  predicate AtMost(a: bytes, b: bytes) {
    !Less(b, a)
  }

  // p lies in the half-open interval from lower; no upper bound means none.
  predicate Within(p: bytes, lower: bytes, upper: Option<bytes>) {
    AtMost(lower, p) && (upper.None? || Less(p, upper.value))
  }

  lemma {:induction false} LessTransitive(a: bytes, b: bytes, c: bytes)
    requires Less(a, b) && Less(b, c)
    ensures Less(a, c)
  {
    if a != [] && a[0] == b[0] == c[0] {
      LessTransitive(a[1..], b[1..], c[1..]);
    }
  }

  // The first difference decides; a proper prefix comes before what it starts.
  ghost predicate DiffersAt(a: bytes, b: bytes, n: nat) {
    n <= |a| && n < |b| && a[..n] == b[..n] && (n == |a| || a[n] < b[n])
  }

  lemma {:induction false} LessMeans(a: bytes, b: bytes)
    ensures Less(a, b) <==> exists n: nat :: DiffersAt(a, b, n)
  {
    if a != [] && b != [] && a[0] == b[0] {
      LessMeans(a[1..], b[1..]);
      if n: nat :| DiffersAt(a[1..], b[1..], n) {
        assert a[..n + 1] == [a[0]] + a[1..][..n] && b[..n + 1] == [b[0]] + b[1..][..n];
        assert DiffersAt(a, b, n + 1);
      }
      if n: nat :| DiffersAt(a, b, n) {
        assert n > 0 && a[1..][..n - 1] == a[..n][1..] && b[1..][..n - 1] == b[..n][1..];
        assert DiffersAt(a[1..], b[1..], n - 1);
      }
    } else if Less(a, b) {
      assert a[..0] == b[..0];
      assert DiffersAt(a, b, 0);
    } else {
      assert forall n: nat :: 0 < n <= |a| && n < |b| && a[..n] == b[..n] ==> a[..n][0] == b[..n][0];
    }
  }

  lemma {:induction false} LessIrreflexive(a: bytes)
    ensures !Less(a, a)
  {
    if a != [] {
      LessIrreflexive(a[1..]);
    }
  }

  lemma LessAsymmetric(a: bytes, b: bytes)
    requires Less(a, b)
    ensures AtMost(a, b) && a != b
  {
    LessIrreflexive(a);
    if Less(b, a) {
      LessTransitive(a, b, a);
    }
  }

  lemma {:induction false} LessTotal(a: bytes, b: bytes)
    ensures Less(a, b) || a == b || Less(b, a)
  {
    if a != [] && b != [] && a[0] == b[0] {
      LessTotal(a[1..], b[1..]);
      assert a == [a[0]] + a[1..] && b == [b[0]] + b[1..];
    }
  }

  lemma AtMostTransitive(a: bytes, b: bytes, c: bytes)
    requires AtMost(a, b) && AtMost(b, c)
    ensures AtMost(a, c)
  {
    LessTotal(a, b);
    LessTotal(b, c);
    if Less(c, a) {
      if a != b && b != c {
        LessTransitive(a, b, c);
        LessTransitive(a, c, a);
      }
      LessIrreflexive(a);
    }
  }

  // Prepending one string to both sides neither creates nor removes an order.
  lemma {:induction false} LessPrepend(p: bytes, a: bytes, b: bytes)
    ensures Less(p + a, p + b) <==> Less(a, b)
  {
    if p == [] {
      assert p + a == a && p + b == b;
    } else {
      assert (p + a)[1..] == p[1..] + a && (p + b)[1..] == p[1..] + b;
      LessPrepend(p[1..], a, b);
    }
  }

  lemma PrefixSplit(p: bytes, s: bytes)
    requires IsPrefix(p, s)
    ensures s == p + s[|p|..]
  {
  }

  lemma PrefixStep(p: bytes, s: bytes)
    requires p != [] && s != []
    ensures IsPrefix(p, s) <==> p[0] == s[0] && IsPrefix(p[1..], s[1..])
  {
    assert p == [p[0]] + p[1..];
    if |p| <= |s| {
      assert s[..|p|] == [s[0]] + s[1..][..|p| - 1];
    }
  }

  lemma Associates<T>(s: seq<T>, t: seq<T>, u: seq<T>)
    ensures s + (t + u) == s + t + u
  {
  }

  // ---- sorted sequences of keys ----

  ghost predicate StrictlyAscending(s: seq<bytes>) {
    forall i, j :: 0 <= i < j < |s| ==> Less(s[i], s[j])
  }

  ghost function Elements<T>(s: seq<T>): set<T> {
    set x | x in s
  }

  lemma ElementsEmpty<T>(s: seq<T>)
    ensures Elements(s) == {} <==> s == []
  {
    if s != [] {
      assert s[0] in Elements(s);
    }
  }

  // A strictly ascending sequence is determined by its set of elements.
  lemma {:induction false} AscendingUnique(s: seq<bytes>, t: seq<bytes>)
    requires StrictlyAscending(s) && StrictlyAscending(t) && Elements(s) == Elements(t)
    ensures s == t
  {
    if s == [] {
      ElementsEmpty(t);
    } else {
      assert s[0] in Elements(t) && (t == [] || t[0] in Elements(s));
      FirstIsLeast(s, t[0]);
      FirstIsLeast(t, s[0]);
      LessTotal(s[0], t[0]);
      AscendingTail(s);
      AscendingTail(t);
      AscendingUnique(s[1..], t[1..]);
    }
  }

  lemma FirstIsLeast(s: seq<bytes>, x: bytes)
    requires StrictlyAscending(s) && x in s
    ensures AtMost(s[0], x)
  {
    var i :| 0 <= i < |s| && s[i] == x;
    if i == 0 {
      LessIrreflexive(x);
    } else {
      LessAsymmetric(s[0], x);
    }
  }

  lemma AscendingTail(s: seq<bytes>)
    requires StrictlyAscending(s) && s != []
    ensures StrictlyAscending(s[1..]) && s[0] !in s[1..]
    ensures Elements(s[1..]) == Elements(s) - {s[0]}
  {
    LessIrreflexive(s[0]);
    forall x | x in Elements(s) - {s[0]} ensures x in s[1..] {
      var i :| 0 <= i < |s| && s[i] == x;
      assert s[1..][i - 1] == x;
    }
  }

  lemma {:induction false} AscendingCount(s: seq<bytes>)
    requires StrictlyAscending(s)
    ensures |Elements(s)| == |s|
  {
    if s == [] {
      assert Elements(s) == {};
    } else {
      AscendingTail(s);
      AscendingCount(s[1..]);
    }
  }

  // The elements of a finite set of keys in ascending byte order.
  ghost function Sorted(s: set<bytes>): (r: seq<bytes>)
    ensures StrictlyAscending(r) && Elements(r) == s
  {
    if s == {} then []
    else
      var m := Least(s);
      var r := [m] + Sorted(s - {m});
      SortedStep(s, m);
      r
  }

  lemma SortedStep(s: set<bytes>, m: bytes)
    requires m in s && forall x :: x in s ==> AtMost(m, x)
    ensures forall r :: StrictlyAscending(r) && Elements(r) == s - {m} ==>
              StrictlyAscending([m] + r) && Elements([m] + r) == s
  {
    forall r | StrictlyAscending(r) && Elements(r) == s - {m}
      ensures StrictlyAscending([m] + r) && Elements([m] + r) == s
    {
      forall i | 0 <= i < |r| ensures Less(m, r[i]) {
        assert r[i] in Elements(r);
        LessTotal(m, r[i]);
      }
      forall x | x in s ensures x in [m] + r {
        assert x == m || x in Elements(r);
      }
      forall x | x in [m] + r ensures x in s {
        assert x == m || x in Elements(r);
      }
    }
  }

  ghost function Least(s: set<bytes>): (m: bytes)
    requires s != {}
    ensures m in s && forall x :: x in s ==> AtMost(m, x)
  {
    LeastExists(s);
    var m :| m in s && forall x :: x in s ==> AtMost(m, x);
    m
  }

  lemma {:induction false} LeastExists(s: set<bytes>)
    requires s != {}
    ensures exists m :: m in s && forall x :: x in s ==> AtMost(m, x)
  {
    var a :| a in s;
    LessIrreflexive(a);
    if s == {a} {
      assert a in s && forall x :: x in s ==> AtMost(a, x);
    } else {
      var t := s - {a};
      LeastExists(t);
      var m :| m in t && forall x :: x in t ==> AtMost(m, x);
      LessTotal(a, m);
      var least := if Less(a, m) then a else m;
      forall x | x in s ensures AtMost(least, x) {
        if least == a && x != a {
          LessAsymmetric(a, m);
          AtMostTransitive(a, m, x);
        }
      }
      assert least in s;
    }
  }
}
