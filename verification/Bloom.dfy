// The filter that lets apply skip deletes of keys that were never stored: six
// probes inside one 512-bit block, for whatever 64-bit hash is supplied.
module Bloom {
  import opened Bytes

  const BITS_PER_KEY := 11
  const PROBES := 6
  const MAX_UINT64: int := 0xffff_ffff_ffff_ffff
  const MULTIPLIER: int := 0x9e37_79b9

  newtype uint64 = x: int | 0 <= x <= MAX_UINT64

  type Hash = bytes -> uint64

  // ---- sizing ----

  datatype Sizing = Blocks(count: nat) | InvalidCount | TooLarge

  // The arithmetic is on uint64, where it does not wrap around.
  function BlockCount(expectedKeys: uint64): Sizing {
    if expectedKeys == 0 || expectedKeys > (MAX_UINT64 - 511) as uint64 / BITS_PER_KEY as uint64 then InvalidCount
    else
      var blocks := (expectedKeys * BITS_PER_KEY as uint64 + 511) / 512;
      if blocks > (MAX_INT / 64) as uint64 then TooLarge else Blocks(blocks as int)
  }

  // Sizing rejects only counts that are zero or would overflow, and otherwise
  // gives the least number of blocks with 11 bits for every expected key.
  lemma SizingExact(expectedKeys: uint64)
    ensures BlockCount(expectedKeys) != TooLarge
    ensures BlockCount(expectedKeys) == InvalidCount <==>
            expectedKeys == 0 || expectedKeys as int * 11 + 511 > 0xffff_ffff_ffff_ffff
    ensures forall n: nat :: BlockCount(expectedKeys) == Blocks(n) ==>
              (n - 1) * 512 < expectedKeys as int * 11 <= n * 512 && 8 * n <= MAX_INT
  {
  }

  // ---- probes ----

  // h is the state before a probe; the probed bit is its top nine bits.
  function BitOf(h: nat): (bit: nat)
    requires h < 0x1_0000_0000
    ensures bit < 512
  {
    h / 0x80_0000
  }

  function NextProbe(h: nat): (r: nat)
    ensures r < 0x1_0000_0000
  {
    h * MULTIPLIER % 0x1_0000_0000
  }

  // The state before probe i of a key whose low hash word is h.
  function ProbeState(h: nat, i: nat): (r: nat)
    requires h < 0x1_0000_0000
    ensures r < 0x1_0000_0000
  {
    if i == 0 then h else NextProbe(ProbeState(h, i - 1))
  }

  predicate BitSet(word: bv64, k: nat)
    requires k < 64
  {
    (word >> k) & 1 == 1
  }

  function OrBit(word: bv64, k: nat): bv64
    requires k < 64
  {
    word | (1 << k)
  }

  // Go's word |= 1 << k sets bit k and changes no other bit.
  lemma SetBit(word: bv64, k: nat, j: nat)
    requires k < 64 && j < 64
    ensures BitSet(OrBit(word, k), j) <==> BitSet(word, j) || j == k
  {
    if j == k {
      SetBitVector(word, k as bv64, k as bv64);
    } else {
      SetBitVector(word, k as bv64, j as bv64);
    }
  }

  lemma SetBitVector(word: bv64, k: bv64, j: bv64)
    requires k < 64 && j < 64
    ensures ((word | (1 << k)) >> j) & 1 == 1 <==> (word >> j) & 1 == 1 || j == k
  {
  }

  // A one-bit accumulator survives a probe exactly if the probed bit is set.
  lemma AndProbe(match_: bv64, word: bv64, k: nat)
    requires k < 64 && (match_ == 0 || match_ == 1)
    ensures match_ & (word >> k) == if match_ == 1 && BitSet(word, k) then 1 else 0
  {
    AndProbeVector(match_, word >> k);
  }

  lemma AndProbeVector(match_: bv64, shifted: bv64)
    requires match_ == 0 || match_ == 1
    ensures match_ & shifted == if match_ == 1 && shifted & 1 == 1 then 1 else 0
  {
  }

  // The high word of a 64-by-64 bit product, which scales a hash to an index.
  function MulHigh(h: uint64, n: nat): nat {
    h as int * n / 0x1_0000_0000_0000_0000
  }

  lemma MulHighInRange(h: uint64, n: nat)
    requires n > 0
    ensures MulHigh(h, n) < n
  {
    assert h as int * n <= MAX_UINT64 * n;
  }

  // ---- bits of the whole filter ----

  // Bits are numbered across the words of the filter.
  predicate BitAt(words: seq<bv64>, p: nat)
    requires p < 64 * |words|
  {
    BitSet(words[p / 64], p % 64)
  }

  function WithBit(words: seq<bv64>, p: nat): (r: seq<bv64>)
    requires p < 64 * |words|
    ensures |r| == |words|
  {
    words[p / 64 := OrBit(words[p / 64], p % 64)]
  }

  lemma WithBitExact(words: seq<bv64>, p: nat, q: nat)
    requires p < 64 * |words| && q < 64 * |words|
    ensures BitAt(WithBit(words, p), q) <==> BitAt(words, q) || q == p
  {
    hide BitSet, OrBit;
    SameSpot(p, q);
    if p / 64 == q / 64 {
      SetBit(words[p / 64], p % 64, q % 64);
    }
  }

  lemma SameSpot(p: nat, q: nat)
    ensures p == q <==> p / 64 == q / 64 && p % 64 == q % 64
  {
  }

  // The bit that probe i of a key lands on: the key's block is chosen by the
  // high word of its hash, the bits in it by the low one.
  function Spot(blocks: nat, hash: Hash, key: bytes, i: nat): (p: nat)
    requires blocks > 0
    ensures p < 512 * blocks
  {
    MulHighInRange(hash(key), blocks);
    512 * MulHigh(hash(key), blocks) + BitOf(ProbeState(hash(key) as int % 0x1_0000_0000, i))
  }

  ghost function Power(n: nat, i: nat): nat {
    if i == 0 then 1 else n * Power(n, i - 1)
  }

  lemma {:induction false} ProbeStateMeans(h: nat, i: nat)
    requires h < 0x1_0000_0000
    ensures ProbeState(h, i) == h * Power(0x9e37_79b9, i) % 0x1_0000_0000
  {
    if i > 0 {
      ProbeStateMeans(h, i - 1);
      var p, m := h * Power(0x9e37_79b9, i - 1), 0x9e37_79b9;
      ModTimes(p, m);
      assert h * (m * Power(m, i - 1)) == p * m by {
        Shuffle(h, m, Power(m, i - 1));
      }
    }
  }

  lemma Shuffle(a: nat, b: nat, c: nat)
    ensures a * (b * c) == a * c * b
  {
  }

  lemma ModTimes(p: nat, m: nat)
    ensures p % 0x1_0000_0000 * m % 0x1_0000_0000 == p * m % 0x1_0000_0000
  {
    var q, r := p / 0x1_0000_0000, p % 0x1_0000_0000;
    assert p * m == r * m + (q * m) * 0x1_0000_0000;
    Wraps(r * m, q * m);
  }

  lemma Wraps(a: nat, k: nat)
    ensures (a + k * 0x1_0000_0000) % 0x1_0000_0000 == a % 0x1_0000_0000
  {
    if k > 0 {
      Wraps(a, k - 1);
      assert a + k * 0x1_0000_0000 == a + (k - 1) * 0x1_0000_0000 + 0x1_0000_0000;
    }
  }

  // The bits of a key with hash h: six of them, each the top nine bits of a
  // 32-bit product, in the block that scaling h by 2^64 gives.
  lemma SpotMeans(blocks: nat, hash: Hash, key: bytes, i: nat)
    requires blocks > 0
    ensures var h := hash(key) as int;
            Spot(blocks, hash, key, i)
            == h * blocks / 0x1_0000_0000_0000_0000 * 512
               + h % 0x1_0000_0000 * Power(0x9e37_79b9, i) % 0x1_0000_0000 / 0x80_0000
  {
    ProbeStateMeans(hash(key) as int % 0x1_0000_0000, i);
  }

  // Bit p is one of the six of some added key.
  ghost predicate OfAdded(blocks: nat, hash: Hash, added: set<bytes>, p: nat)
    requires blocks > 0
  {
    exists k, j: nat :: k in added && j < 6 && Spot(blocks, hash, k, j) == p
  }

  // A key passes exactly if each of its six bits is one of an added key's.
  lemma PassesMeans(blocks: nat, hash: Hash, added: set<bytes>, key: bytes)
    requires blocks > 0
    ensures Passes(blocks, hash, added, key) <==>
            forall i: nat :: i < 6 ==> OfAdded(blocks, hash, added, Spot(blocks, hash, key, i))
  {
    hide Spot;
    forall p ensures Marked(blocks, hash, added, p) <==> OfAdded(blocks, hash, added, p) {
      if k, j: nat :| k in added && j < 6 && Spot(blocks, hash, k, j) == p {
        assert Hits(blocks, hash, k, p);
      }
    }
  }

  ghost predicate Hits(blocks: nat, hash: Hash, key: bytes, p: nat)
    requires blocks > 0
  {
    exists i: nat :: i < PROBES && Spot(blocks, hash, key, i) == p
  }

  // Bit p is one that some added key has set.
  ghost predicate Marked(blocks: nat, hash: Hash, added: set<bytes>, p: nat)
    requires blocks > 0
  {
    exists k :: k in added && Hits(blocks, hash, k, p)
  }

  // What a filter holding `added` lets through: keys all of whose bits are marked.
  ghost predicate Passes(blocks: nat, hash: Hash, added: set<bytes>, key: bytes)
    requires blocks > 0
  {
    forall i: nat :: i < PROBES ==> Marked(blocks, hash, added, Spot(blocks, hash, key, i))
  }

  // Every added key passes, whatever the hash; an empty filter passes nothing.
  lemma AddedPass(blocks: nat, hash: Hash, added: set<bytes>, key: bytes)
    requires blocks > 0
    ensures key in added ==> Passes(blocks, hash, added, key)
    ensures !Passes(blocks, hash, {}, key)
  {
    if key in added {
      forall i: nat | i < PROBES ensures Marked(blocks, hash, added, Spot(blocks, hash, key, i)) {
        assert Hits(blocks, hash, key, Spot(blocks, hash, key, i));
      }
    }
    assert !Marked(blocks, hash, {}, Spot(blocks, hash, key, 0));
  }

  // More added keys let more through.
  lemma PassesMonotone(blocks: nat, hash: Hash, added: set<bytes>, more: set<bytes>, key: bytes)
    requires blocks > 0 && added <= more && Passes(blocks, hash, added, key)
    ensures Passes(blocks, hash, more, key)
  {
    forall i: nat | i < PROBES ensures Marked(blocks, hash, more, Spot(blocks, hash, key, i)) {
      var k :| k in added && Hits(blocks, hash, k, Spot(blocks, hash, key, i));
    }
  }

  // A hash under which a key that was not added does not pass: it alone hashes
  // to bit one, everything else to bit zero.
  lemma SomeHashRejects(blocks: nat, added: set<bytes>, key: bytes) returns (hash: Hash)
    requires blocks > 0 && key !in added
    ensures !Passes(blocks, hash, added, key)
  {
    hash := k => if k == key then 0x80_0000 else 0;
    var h := hash;
    var p := Spot(blocks, h, key, 0);
    MulHighSmall(0x80_0000, blocks);
    assert p % 512 == 1;
    forall k, i: nat | k in added && i < PROBES ensures Spot(blocks, h, k, i) != p {
      ZeroStaysZero(i);
      MulHighSmall(0, blocks);
    }
    assert !Marked(blocks, h, added, p);
  }

  lemma {:induction false} ZeroStaysZero(i: nat)
    ensures ProbeState(0, i) == 0
  {
    if i > 0 {
      ZeroStaysZero(i - 1);
    }
  }

  lemma MulHighSmall(h: uint64, blocks: nat)
    ensures h == 0 ==> MulHigh(h, blocks) == 0
  {
  }

  // The words after the first n probes of an Add.
  function AfterProbes(words: seq<bv64>, blocks: nat, hash: Hash, key: bytes, n: nat): (r: seq<bv64>)
    requires blocks > 0 && |words| == 8 * blocks
    ensures |r| == |words|
  {
    if n == 0 then words
    else WithBit(AfterProbes(words, blocks, hash, key, n - 1), Spot(blocks, hash, key, n - 1))
  }

  // An Add sets exactly the key's bits.
  lemma {:induction false} AfterProbesExact(words: seq<bv64>, blocks: nat, hash: Hash, key: bytes, n: nat, q: nat)
    requires blocks > 0 && |words| == 8 * blocks && q < 64 * |words|
    ensures BitAt(AfterProbes(words, blocks, hash, key, n), q)
            <==> BitAt(words, q) || exists i: nat :: i < n && Spot(blocks, hash, key, i) == q
  {
    hide BitAt, WithBit, Spot;
    if n > 0 {
      AfterProbesExact(words, blocks, hash, key, n - 1, q);
      WithBitExact(AfterProbes(words, blocks, hash, key, n - 1), Spot(blocks, hash, key, n - 1), q);
    }
  }

  // The set bits are exactly the marked ones.
  ghost predicate Exact(words: seq<bv64>, blocks: nat, hash: Hash, added: set<bytes>)
    requires blocks > 0 && |words| == 8 * blocks
  {
    forall p: nat :: p < 64 * |words| ==> (BitAt(words, p) <==> Marked(blocks, hash, added, p))
  }

  lemma ExactAdd(words: seq<bv64>, blocks: nat, hash: Hash, added: set<bytes>, key: bytes)
    requires blocks > 0 && |words| == 8 * blocks && Exact(words, blocks, hash, added)
    ensures Exact(AfterProbes(words, blocks, hash, key, PROBES), blocks, hash, added + {key})
  {
    hide BitAt, AfterProbes, Spot;
    var after := AfterProbes(words, blocks, hash, key, PROBES);
    forall p: nat | p < 64 * |after|
      ensures BitAt(after, p) <==> Marked(blocks, hash, added + {key}, p)
    {
      AfterProbesExact(words, blocks, hash, key, PROBES, p);
      MarkedAdd(blocks, hash, added, key, p);
    }
  }

  lemma MarkedAdd(blocks: nat, hash: Hash, added: set<bytes>, key: bytes, p: nat)
    requires blocks > 0
    ensures Marked(blocks, hash, added + {key}, p) <==> Marked(blocks, hash, added, p) || Hits(blocks, hash, key, p)
  {
    hide Hits;
    if Marked(blocks, hash, added, p) {
      var k :| k in added && Hits(blocks, hash, k, p);
      assert k in added + {key};
    }
    if Hits(blocks, hash, key, p) {
      assert key in added + {key};
    }
  }

  lemma ExactEmpty(words: seq<bv64>, blocks: nat, hash: Hash)
    requires blocks > 0 && |words| == 8 * blocks && forall w :: 0 <= w < |words| ==> words[w] == 0
    ensures Exact(words, blocks, hash, {})
  {
    forall p: nat | p < 64 * |words| ensures !BitAt(words, p) {
      ZeroWord(words[p / 64], p % 64);
    }
  }

  lemma ZeroWord(word: bv64, k: nat)
    requires word == 0 && k < 64
    ensures !BitSet(word, k)
  {
    ZeroWordVector(k as bv64);
  }

  lemma ZeroWordVector(k: bv64)
    requires k < 64
    ensures ((0 as bv64) >> k) & 1 == 0
  {
  }

  method SetInPlace(bits: array<bv64>, p: nat)
    requires p < 64 * bits.Length
    modifies bits
    ensures bits[..] == WithBit(old(bits[..]), p)
  {
    bits[p / 64] := bits[p / 64] | (1 << (p % 64));
  }

  class DeleteBloom {
    const bits: array<bv64>
    const hash: Hash
    ghost var added: set<bytes>

    predicate Shaped() {
      bits.Length % 8 == 0 && bits.Length > 0
    }

    function Blocks(): (n: nat)
      requires Shaped()
      ensures n > 0 && bits.Length == 8 * n
    {
      bits.Length / 8
    }

    ghost predicate Valid()
      reads this, bits
    {
      Shaped() && Exact(bits[..], Blocks(), hash, added)
    }

    constructor (blocks: nat, hash: Hash)
      requires blocks > 0
      ensures Valid() && added == {} && fresh(bits)
      ensures Blocks() == blocks && this.hash == hash
    {
      bits := new bv64[8 * blocks](_ => 0);
      this.hash := hash;
      added := {};
      new;
      ExactEmpty(bits[..], blocks, hash);
    }

    // The first word of a key's block, and the low half of its hash.
    function Block(key: bytes): (r: (nat, nat))
      requires Shaped()
      ensures r.0 + 8 <= bits.Length && r.1 < 0x1_0000_0000
    {
      var h := hash(key);
      MulHighInRange(h, bits.Length / 8);
      (MulHigh(h, bits.Length / 8) * 8, h as int % 0x1_0000_0000)
    }

    lemma SpotInBlock(key: bytes, i: nat)
      requires Shaped()
      ensures var (offset, h) := Block(key);
              Spot(Blocks(), hash, key, i) == 64 * offset + BitOf(ProbeState(h, i))
    {
    }

    // Sets the key's bits and no others.
    method Add(key: bytes)
      requires Valid()
      modifies bits, this`added
      ensures Valid() && added == old(added) + {key}
    {
      ExactAdd(bits[..], Blocks(), hash, added, key);
      SetProbes(key);
      added := added + {key};
    }

    method SetProbes(key: bytes)
      requires Shaped()
      modifies bits
      ensures bits[..] == AfterProbes(old(bits[..]), Blocks(), hash, key, PROBES)
    {
      hide Spot, WithBit, BitOf, ProbeState, NextProbe;
      var (offset, h) := Block(key);
      ghost var start, low := bits[..], h;
      ProbeStart(low);
      for i := 0 to PROBES
        invariant h == ProbeState(low, i) && h < 0x1_0000_0000
        invariant bits[..] == AfterProbes(start, Blocks(), hash, key, i)
      {
        var bit := BitOf(h);
        SpotInBlock(key, i);
        SetInPlace(bits, 64 * offset + bit);
        ProbeNext(low, i);
        h := NextProbe(h);
      }
    }

    // True exactly for what the keys added so far let through.
    method MayContain(key: bytes) returns (r: bool)
      requires Valid()
      ensures r <==> Passes(Blocks(), hash, added, key)
      ensures key in added ==> r
    {
      hide Spot, BitOf, ProbeState, NextProbe, Marked, Hits, BitSet;
      var (offset, h) := Block(key);
      ghost var low := h;
      ProbeStart(low);
      var match_: bv64 := 1;
      for i := 0 to PROBES
        invariant h == ProbeState(low, i) && h < 0x1_0000_0000
        invariant match_ == if forall j: nat :: j < i ==> Marked(Blocks(), hash, added, Spot(Blocks(), hash, key, j))
                            then 1 else 0
      {
        var bit := BitOf(h);
        SpotInBlock(key, i);
        AndProbe(match_, bits[offset + bit / 64], bit % 64);
        assert BitAt(bits[..], Spot(Blocks(), hash, key, i)) == BitSet(bits[offset + bit / 64], bit % 64);
        match_ := match_ & (bits[offset + bit / 64] >> (bit % 64));
        ProbeNext(low, i);
        h := NextProbe(h);
      }
      AddedPass(Blocks(), hash, added, key);
      return match_ != 0;
    }
  }

  lemma ProbeStart(h: nat)
    requires h < 0x1_0000_0000
    ensures ProbeState(h, 0) == h
  {
  }

  lemma ProbeNext(h: nat, i: nat)
    requires h < 0x1_0000_0000
    ensures ProbeState(h, i + 1) == NextProbe(ProbeState(h, i))
  {
  }

  // A filter is made for every count that sizing accepts, and it starts empty.
  method NewDeleteBloom(expectedKeys: uint64, hash: Hash) returns (r: Option<DeleteBloom>)
    ensures r.Some? <==> BlockCount(expectedKeys).Blocks?
    ensures r.Some? ==> fresh(r.value) && fresh(r.value.bits) && r.value.Valid() && r.value.added == {}
                        && r.value.Blocks() == BlockCount(expectedKeys).count && r.value.hash == hash
  {
    SizingExact(expectedKeys);
    match BlockCount(expectedKeys)
    case Blocks(n) =>
      var b := new DeleteBloom(n, hash);
      return Some(b);
    case _ =>
      return None;
  }
}
