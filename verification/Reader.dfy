// Buffered reading. The underlying reader hands out its bytes in pieces of its
// own choosing; a slice of the buffer is good only until the next read.
module Reading {
  import opened Bytes
  import Grammar

  datatype SliceStatus = Found | AtEof | BufferFull

  datatype ReadError = EOF | TooLarge

  // Bytes read so far: a view of the reader's own buffer, or a private copy.
  datatype Slice = InBuffer(lo: nat, hi: nat) | Owned(data: bytes)

  class BufReader {
    const buf: array<byte>
    var r: nat
    var w: nat
    // What the underlying reader has not delivered yet, and whether it has
    // already reported its end.
    var src: bytes
    var eof: bool

    ghost predicate Valid()
      reads this
    {
      r <= w <= buf.Length && buf.Length > 0 && (eof ==> src == [])
    }

    // Every byte still to come, buffered or not.
    ghost function Remaining(): bytes
      requires Valid()
      reads this, buf
    {
      buf[r..w] + src
    }

    constructor (input: bytes, size: nat)
      requires size > 0
      ensures Valid() && Remaining() == input && fresh(buf) && buf.Length == size
    {
      buf := new byte[size](_ => 0);
      r, w, src, eof := 0, 0, input, false;
    }

    // Slides the unread bytes to the front and reads once. How many bytes
    // arrive, and whether the end is reported along with the last of them, is
    // up to the underlying reader.
    method Fill()
      requires Valid() && !eof && w - r < buf.Length
      modifies this, buf
      ensures Valid() && r == 0 && Remaining() == old(Remaining())
      ensures old(src) == [] ==> eof
      ensures w >= old(w - r) && buf[..old(w - r)] == old(buf[r..w])
      ensures |src| < old(|src|) || eof
      ensures |src| <= old(|src|)
    {
      var kept := w - r;
      forall i | 0 <= i < kept {
        buf[i] := buf[r + i];
      }
      r, w := 0, kept;
      assert buf[..kept] == old(buf[r..w]);
      if src == [] {
        eof := true;
        return;
      }
      var room := buf.Length - w;
      var n: nat :| 0 < n <= room && n <= |src|;
      forall i | 0 <= i < n {
        buf[kept + i] := src[i];
      }
      assert buf[..kept + n] == old(buf[r..w]) + src[..n];
      w, src := kept + n, src[n..];
      assert old(src) == old(src)[..n] + src;
      var early: bool := *;
      eof := src == [] && early;
    }

    method IndexByte(lo: nat, hi: nat, delim: byte) returns (i: nat)
      requires lo <= hi <= buf.Length
      ensures lo <= i <= hi && delim !in buf[lo..i] && (i < hi ==> buf[i] == delim)
    {
      i := lo;
      while i < hi && buf[i] != delim
        invariant lo <= i <= hi && delim !in buf[lo..i]
      {
        assert buf[lo..i + 1] == buf[lo..i] + [buf[i]];
        i := i + 1;
      }
    }

    // Looks on from where the last search stopped.
    method Find(s: nat, delim: byte) returns (i: nat)
      requires Valid() && s <= w - r && delim !in buf[r..r + s]
      ensures r <= i <= w && delim !in buf[r..i] && (i < w ==> buf[i] == delim)
    {
      i := IndexByte(r + s, w, delim);
      assert buf[r..i] == buf[r..r + s] + buf[r + s..i];
    }

    // What was searched before stays searched.
    method Refill(ghost delim: byte)
      requires Valid() && !eof && w - r < buf.Length && delim !in buf[r..w]
      modifies this, buf
      ensures Valid() && Remaining() == old(Remaining())
      ensures w - r >= old(w - r) && delim !in buf[r..r + old(w - r)]
      ensures |src| <= old(|src|) && (|src| < old(|src|) || eof)
    {
      Fill();
    }

    // Hands out the buffered bytes up to m.
    method Take(m: nat) returns (lo: nat, hi: nat)
      requires Valid() && r <= m <= w
      modifies this`r
      ensures Valid() && r == m && lo == old(r) && hi == m
      ensures old(Remaining()) == buf[lo..hi] + Remaining()
    {
      assert buf[r..w] == buf[r..m] + buf[m..w];
      lo, hi, r := r, m, m;
    }

    // Returns the buffered bytes up to and including the delimiter, or all that
    // are left at the end, or a full buffer without a delimiter.
    method ReadSlice(delim: byte) returns (lo: nat, hi: nat, status: SliceStatus)
      requires Valid()
      modifies this, buf
      ensures Valid() && lo <= hi <= buf.Length
      ensures old(Remaining()) == buf[lo..hi] + Remaining()
      ensures status == Found ==> lo < hi && buf[hi - 1] == delim && delim !in buf[lo..hi - 1]
      ensures status != Found ==> delim !in buf[lo..hi]
      ensures status == AtEof ==> Remaining() == []
      ensures status == BufferFull ==> lo < hi
    {
      var s := 0;
      while true
        invariant Valid() && Remaining() == old(Remaining())
        invariant 0 <= s <= w - r && delim !in buf[r..r + s]
        decreases if eof then 0 else 1, |src|
      {
        var i := Find(s, delim);
        if i < w {
          lo, hi := Take(i + 1);
          return lo, hi, Found;
        }
        if eof {
          lo, hi := Take(w);
          eof := false;
          return lo, hi, AtEof;
        }
        if w - r >= buf.Length {
          lo, hi := Take(w);
          return lo, hi, BufferFull;
        }
        s := w - r;
        Refill(delim);
      }
    }

    predicate InRange(s: Slice) {
      s.InBuffer? ==> s.lo <= s.hi <= buf.Length
    }

    function Size(s: Slice): nat
      requires InRange(s)
      reads buf
      ensures Size(s) == |Bytes(s)|
    {
      match s
      case InBuffer(lo, hi) => hi - lo
      case Owned(data) => |data|
    }

    function Bytes(s: Slice): bytes
      requires InRange(s)
      reads buf
    {
      match s
      case InBuffer(lo, hi) => buf[lo..hi]
      case Owned(data) => data
    }

    // The last part of a line: still a view if nothing had to be kept before it.
    method Finish(out: bytes, lo: nat, hi: nat, status: SliceStatus) returns (s: Slice)
      requires lo <= hi <= buf.Length && (status == Found ==> lo < hi)
      ensures InRange(s) && Bytes(s) == out + ContentOf(buf[lo..hi], status)
    {
      var end := if status == Found then hi - 1 else hi;
      assert ContentOf(buf[lo..hi], status) == buf[lo..end];
      if |out| == 0 {
        assert out + buf[lo..end] == buf[lo..end];
        return InBuffer(lo, end);
      }
      var whole := out + buf[lo..hi];
      assert whole[..|out| + end - lo] == out + buf[lo..end];
      return Owned(whole[..|out| + end - lo]);
    }

    // The content up to the delimiter or the end, over any number of refills.
    method ReadUntil(delim: byte, maxBytes: nat) returns (s: Slice, n: nat, err: Option<ReadError>)
      requires Valid()
      modifies this, buf
      ensures Valid() && InRange(s)
      ensures UntilOutcome(old(Remaining()), delim, maxBytes, Bytes(s), n, err, Remaining())
    {
      hide UntilOutcome, Remaining, Bytes;
      ghost var input := Remaining();
      var out: bytes := [];
      n := 0;
      while true
        invariant Valid() && input == out + Remaining() && n == |out|
        invariant delim !in out && |out| <= maxBytes
        decreases |input| - |out|
      {
        var lo, hi, status := ReadSlice(delim);
        ghost var part, rest := buf[lo..hi], Remaining();
        Associates(out, part, rest);
        n := n + hi - lo;
        var contentLen := |out| + hi - lo - if status == Found then 1 else 0;
        if contentLen > maxBytes {
          PartTooLarge(input, out, part, rest, delim, status, maxBytes);
          return Owned([]), n, Some(TooLarge);
        }
        if status != BufferFull {
          PartDone(input, out, part, rest, delim, status, maxBytes);
          s := Finish(out, lo, hi, status);
          return s, n, if status == Found then None else Some(EOF);
        }
        out := out + buf[lo..hi];
      }
    }

    // A read that bypasses the empty buffer; the end may come along with the
    // last bytes.
    method ReadDirect(dst: array<byte>, lo: nat, hi: nat) returns (n: nat, end: bool)
      requires Valid() && lo < hi <= dst.Length && dst != buf && r == w && src != []
      modifies this`src, dst
      ensures Valid() && 0 < n && lo + n <= hi
      ensures old(src) == dst[lo..lo + n] + src && (end ==> src == [])
      ensures dst[..lo] == old(dst[..lo])
    {
      n :| 0 < n <= hi - lo && n <= |src|;
      forall i | 0 <= i < n {
        dst[lo + i] := src[i];
      }
      assert dst[lo..lo + n] == src[..n];
      assert src == src[..n] + src[n..];
      src := src[n..];
      var early: bool := *;
      end := src == [] && early;
    }

    method CopyBuffered(dst: array<byte>, lo: nat, hi: nat) returns (n: nat)
      requires Valid() && lo < hi <= dst.Length && dst != buf && r < w
      modifies this`r, dst
      ensures Valid() && 0 < n && lo + n <= hi
      ensures old(Remaining()) == dst[lo..lo + n] + Remaining()
      ensures dst[..lo] == old(dst[..lo])
    {
      n := if w - r < hi - lo then w - r else hi - lo;
      forall i | 0 <= i < n {
        dst[lo + i] := buf[r + i];
      }
      assert dst[lo..lo + n] == buf[r..r + n];
      assert buf[r..w] == buf[r..r + n] + buf[r + n..w];
      r := r + n;
    }

    // Copies what is buffered, or bypasses the buffer for a large destination.
    method Read(dst: array<byte>, lo: nat, hi: nat) returns (n: nat, end: bool)
      requires Valid() && lo < hi <= dst.Length && dst != buf
      modifies this, buf, dst
      ensures Valid() && lo + n <= hi
      ensures old(Remaining()) == dst[lo..lo + n] + Remaining()
      ensures dst[..lo] == old(dst[..lo])
      ensures (end ==> Remaining() == []) && (end || n > 0)
    {
      if r == w {
        if eof {
          eof := false;
          return 0, true;
        }
        if hi - lo >= buf.Length {
          if src == [] {
            return 0, true;
          }
          n, end := ReadDirect(dst, lo, hi);
          return;
        }
        Fill();
        if r == w {
          eof := false;
          return 0, true;
        }
      }
      n := CopyBuffered(dst, lo, hi);
      return n, false;
    }

    // io.ReadFull into dst[..size].
    method ReadFull(dst: array<byte>, size: nat) returns (n: nat, ok: bool)
      requires Valid() && size <= dst.Length && dst != buf
      modifies this, buf, dst
      ensures Valid() && n <= size
      ensures ok <==> |old(Remaining())| >= size
      ensures ok ==> n == size && dst[..size] == old(Remaining())[..size] && Remaining() == old(Remaining())[size..]
      ensures !ok ==> n == |old(Remaining())| && Remaining() == []
    {
      hide Remaining;
      n := 0;
      var end := false;
      while n < size && !end
        invariant n <= size && Valid()
        invariant old(Remaining()) == dst[..n] + Remaining()
        invariant end ==> Remaining() == []
        decreases size - n, if end then 0 else 1
      {
        ghost var before := dst[..n];
        var k;
        k, end := Read(dst, n, size);
        assert dst[..n + k] == before + dst[n..n + k];
        n := n + k;
      }
      return n, n == size;
    }

    method ReadByte() returns (b: Option<byte>)
      requires Valid()
      modifies this, buf
      ensures Valid()
      ensures var input := old(Remaining());
              if input == [] then b == None && Remaining() == []
              else b == Some(input[0]) && Remaining() == input[1..]
    {
      if r == w && !eof {
        Fill();
      }
      if r == w {
        eof := false;
        return None;
      }
      r := r + 1;
      return Some(buf[r - 1]);
    }
  }

  // What reading up to a delimiter means: too large exactly when the content
  // exceeds the limit, and otherwise the content, its size with the delimiter,
  // and what is left to read.
  ghost predicate UntilOutcome(input: bytes, delim: byte, maxBytes: nat, content: bytes, n: nat,
      err: Option<ReadError>, rest: bytes) {
    var i := Grammar.IndexOf(input, delim);
    if i > maxBytes then err == Some(TooLarge)
    else
      content == input[..i]
      && if i < |input| then err == None && n == i + 1 && rest == input[i + 1..]
         else err == Some(EOF) && n == i && rest == []
  }

  // One ReadSlice added `part` to what had come before.
  ghost predicate Split(input: bytes, out: bytes, part: bytes, rest: bytes, delim: byte, status: SliceStatus) {
    input == out + part + rest && delim !in out
    && (if status == Found then part != [] && part[|part| - 1] == delim && delim !in part[..|part| - 1]
        else delim !in part)
    && (status == AtEof ==> rest == [])
  }

  function ContentOf(part: bytes, status: SliceStatus): bytes {
    if status == Found && part != [] then part[..|part| - 1] else part
  }

  lemma PartDone(input: bytes, out: bytes, part: bytes, rest: bytes, delim: byte, status: SliceStatus, maxBytes: nat)
    requires Split(input, out, part, rest, delim, status) && status != BufferFull
    requires |out| + |ContentOf(part, status)| <= maxBytes
    ensures UntilOutcome(input, delim, maxBytes, out + ContentOf(part, status), |out| + |part|,
                         if status == Found then None else Some(EOF), rest)
  {
    var front := out + ContentOf(part, status);
    if status == Found {
      assert input == front + [delim] + rest;
      Grammar.IndexOfConcat(front, delim, rest);
    } else {
      assert input == front;
      Grammar.IndexOfConcat(front, delim, []);
    }
  }

  lemma PartTooLarge(input: bytes, out: bytes, part: bytes, rest: bytes, delim: byte, status: SliceStatus,
      maxBytes: nat)
    requires Split(input, out, part, rest, delim, status)
    requires |out| + |ContentOf(part, status)| > maxBytes
    ensures forall content, n, left :: UntilOutcome(input, delim, maxBytes, content, n, Some(TooLarge), left)
  {
    var front := out + ContentOf(part, status);
    assert delim !in front;
    assert forall j :: 0 <= j < |front| ==> input[j] == front[j];
    assert Grammar.IndexOf(input, delim) >= |front|;
  }
}
