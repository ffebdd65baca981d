// What the physical database means: for each collection a map from user keys
// to values, and everything else.
module Views {
  import opened Bytes
  import opened Pebble
  import Keyenc

  function UserKeys(data: KV, c: bytes): (r: set<bytes>)
    ensures forall k :: k in r <==> Keyenc.DataKey(c, k) in data
  {
    var base := Keyenc.CollectionBase(c);
    var r := set p | p in data && IsPrefix(base, p) :: p[|base|..];
    assert forall k :: k in r <==> Keyenc.DataKey(c, k) in data by {
      forall k | Keyenc.DataKey(c, k) in data ensures k in r {
        var p := Keyenc.DataKey(c, k);
        assert IsPrefix(base, p) && p[|base|..] == k;
      }
      forall p | p in data && IsPrefix(base, p) ensures p == Keyenc.DataKey(c, p[|base|..]) {
        PrefixSplit(base, p);
      }
    }
    r
  }

  // The contents of one collection.
  function View(data: KV, c: bytes): KV {
    map k | k in UserKeys(data, c) :: data[Keyenc.DataKey(c, k)]
  }

  lemma ViewAt(data: KV, c: bytes, k: bytes)
    requires k in View(data, c)
    ensures Keyenc.DataKey(c, k) in data && View(data, c)[k] == data[Keyenc.DataKey(c, k)]
  {
  }

  // The physical records that belong to no key of the collection.
  function Outside(data: KV, c: bytes): KV {
    map p | p in data && !IsPrefix(Keyenc.CollectionBase(c), p) :: data[p]
  }

  lemma DataKeyHasBase(c: bytes, k: bytes)
    ensures IsPrefix(Keyenc.CollectionBase(c), Keyenc.DataKey(c, k))
  {
  }

  lemma OtherKeysDiffer(c: bytes, k: bytes)
    ensures forall k' :: k' != k ==> Keyenc.DataKey(c, k') != Keyenc.DataKey(c, k)
  {
    hide Keyenc.DataKey;
    forall k' | k' != k ensures Keyenc.DataKey(c, k') != Keyenc.DataKey(c, k) {
      if Keyenc.DataKey(c, k') == Keyenc.DataKey(c, k) {
        Keyenc.DataKeyInjective(c, k', c, k);
      }
    }
  }

  lemma ViewSet(data: KV, c: bytes, k: bytes, v: bytes)
    ensures View(data[Keyenc.DataKey(c, k) := v], c) == View(data, c)[k := v]
    ensures Outside(data[Keyenc.DataKey(c, k) := v], c) == Outside(data, c)
  {
    hide Keyenc.DataKey, Keyenc.CollectionBase;
    DataKeyHasBase(c, k);
    OtherKeysDiffer(c, k);
  }

  lemma ViewDelete(data: KV, c: bytes, k: bytes)
    ensures View(data - {Keyenc.DataKey(c, k)}, c) == View(data, c) - {k}
    ensures Outside(data - {Keyenc.DataKey(c, k)}, c) == Outside(data, c)
  {
    hide Keyenc.DataKey, Keyenc.CollectionBase;
    DataKeyHasBase(c, k);
    OtherKeysDiffer(c, k);
  }

  // A change that stays inside one collection is invisible in every other.
  lemma OutsideKeepsViews(data: KV, data': KV, c: bytes, c': bytes)
    requires Outside(data, c) == Outside(data', c) && c != c'
    ensures View(data, c') == View(data', c')
  {
    forall k
      ensures Keyenc.DataKey(c', k) in data <==> Keyenc.DataKey(c', k) in data'
      ensures Keyenc.DataKey(c', k) in data ==> data[Keyenc.DataKey(c', k)] == data'[Keyenc.DataKey(c', k)]
    {
      var p := Keyenc.DataKey(c', k);
      KeyInOneCollection(c, c', k);
      assert p in data <==> p in Outside(data, c);
      assert p in data' <==> p in Outside(data', c);
    }
  }

  lemma KeyInOneCollection(c: bytes, c': bytes, k: bytes)
    requires c != c'
    ensures !IsPrefix(Keyenc.CollectionBase(c), Keyenc.DataKey(c', k))
  {
    var p := Keyenc.DataKey(c', k);
    if IsPrefix(Keyenc.CollectionBase(c), p) {
      PrefixSplit(Keyenc.CollectionBase(c), p);
      Keyenc.DataKeyInjective(c, p[|Keyenc.CollectionBase(c)|..], c', k);
    }
  }

  // A metadata record belongs to no collection.
  lemma MetadataIsOutside(c: bytes, name: bytes)
    ensures !IsPrefix(Keyenc.CollectionBase(c), Keyenc.MetadataKey(name))
  {
    assert Keyenc.CollectionBase(c)[0] == Keyenc.DATA_PREFIX;
    assert Keyenc.MetadataKey(name)[0] == Keyenc.META_PREFIX;
  }

  lemma MetadataKeepsView(data: KV, name: bytes, v: bytes, c: bytes)
    ensures View(data[Keyenc.MetadataKey(name) := v], c) == View(data, c)
    ensures View(data - {Keyenc.MetadataKey(name)}, c) == View(data, c)
  {
    forall k ensures Keyenc.DataKey(c, k) != Keyenc.MetadataKey(name) {
      assert Keyenc.DataKey(c, k)[0] == Keyenc.DATA_PREFIX;
      assert Keyenc.MetadataKey(name)[0] == Keyenc.META_PREFIX;
    }
  }

  lemma OutsideView(data: KV, c: bytes, c': bytes)
    ensures View(Outside(data, c), c') == if c' == c then map[] else View(data, c')
  {
    forall k
      ensures Keyenc.DataKey(c', k) in Outside(data, c) <==> Keyenc.DataKey(c', k) in data && c' != c
    {
      if c' == c {
        DataKeyHasBase(c, k);
      } else {
        KeyInOneCollection(c, c', k);
      }
    }
  }
}
