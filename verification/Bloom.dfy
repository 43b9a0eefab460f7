/** The Bloom filter over message ids: an array of 64-bit words. */
module Bloom {
  import opened Basics
  import opened Bits

  const WORD_BITS: nat := 64

  /** The sizing, computed elsewhere, and the hash family, of which only the
      range is known. */
  datatype FilterOptions = FilterOptions(totalBits: nat, kHashes: nat, hashN: (string, nat, nat) -> nat) {
    function NumWords(): nat {
      1 + totalBits / WORD_BITS
    }

    ghost predicate Valid() {
      totalBits > 0 && forall item, i :: hashN(item, i, totalBits) < totalBits
    }

    /** The bit positions an item occupies. */
    function Positions(item: string): set<nat> {
      set i | 0 <= i < kHashes :: hashN(item, i, totalBits)
    }

    /** The same positions in the order they are computed. */
    function Hashes(item: string): (r: seq<nat>)
      ensures |r| == kHashes
      ensures Elems(r) == Positions(item)
    {
      var r := seq(kHashes, i requires 0 <= i < kHashes => hashN(item, i, totalBits));
      assert forall i :: 0 <= i < kHashes ==> r[i] == hashN(item, i, totalBits) && r[i] in r;
      r
    }
  }

  // Filter contents.

  predicate WordsBounded(data: seq<nat>) {
    forall i :: 0 <= i < |data| ==> data[i] < 0x1_0000_0000_0000_0000
  }

  /** Is bit `h` of the array set? */
  predicate HasBit(data: seq<nat>, h: nat) {
    h / WORD_BITS < |data| && Bit(data[h / WORD_BITS], h % WORD_BITS)
  }

  /** Position `h` is the digit of weight two to the `h % 64` of word `h / 64`. */
  lemma BitPlace(data: seq<nat>, h: nat)
    requires h / 64 < |data|
    ensures HasBit(data, h) <==> data[h / 64] / Pow2(h % 64) % 2 == 1
  {
    BitIsDigit(data[h / 64], h % 64);
  }

  /** Every position falls inside an array of `n` words. */
  ghost predicate AllWithin(hs: seq<nat>, n: nat) {
    forall i :: 0 <= i < |hs| ==> hs[i] / WORD_BITS < n
  }

  ghost function SetBit(data: seq<nat>, h: nat): (r: seq<nat>)
    requires h / WORD_BITS < |data|
    ensures |r| == |data|
  {
    data[h / WORD_BITS := Or(data[h / WORD_BITS], ShiftOne(h % WORD_BITS))]
  }

  ghost function SetBits(data: seq<nat>, hs: seq<nat>): (r: seq<nat>)
    requires AllWithin(hs, |data|)
    ensures |r| == |data|
  {
    if |hs| == 0 then data
    else
      SetBit(SetBits(data, hs[..|hs| - 1]), hs[|hs| - 1])
  }

  lemma SetBitEffect(data: seq<nat>, h: nat, g: nat)
    requires h / WORD_BITS < |data|
    ensures HasBit(SetBit(data, h), g) <==> HasBit(data, g) || g == h
    ensures WordsBounded(data) ==> WordsBounded(SetBit(data, h))
  {
    var a, k := h / WORD_BITS, h % WORD_BITS;
    OrBits(data[a], ShiftOne(k), g % WORD_BITS);
    ShiftOneBits(k, g % WORD_BITS);
    Pow256Word();
    Pow2Monotone(k, 64);
    if WordsBounded(data) {
      OrBound(data[a], ShiftOne(k), 64);
    }
  }

  /** Setting bits sets those bits and no others, and words stay 64-bit. */
  lemma {:induction false} SetBitsEffect(data: seq<nat>, hs: seq<nat>, g: nat)
    requires AllWithin(hs, |data|)
    ensures HasBit(SetBits(data, hs), g) <==> HasBit(data, g) || g in hs
    ensures WordsBounded(data) ==> WordsBounded(SetBits(data, hs))
  {
    if |hs| > 0 {
      var p, l := hs[..|hs| - 1], hs[|hs| - 1];
      assert hs == p + [l];
      SetBitsEffect(data, p, g);
      SetBitEffect(SetBits(data, p), l, g);
    }
  }

  /** A filter's words, for given options. */
  ghost predicate WellSized(options: FilterOptions, data: seq<nat>) {
    options.Valid() && |data| == options.NumWords() && WordsBounded(data)
  }

  lemma PositionsInRange(options: FilterOptions, data: seq<nat>, item: string)
    requires options.Valid() && |data| == options.NumWords()
    ensures AllWithin(options.Hashes(item), |data|)
  {
    var hs := options.Hashes(item);
    forall j | 0 <= j < |hs| ensures hs[j] / WORD_BITS < |data| {
      assert hs[j] in Elems(hs);
      var i :| 0 <= i < options.kHashes && hs[j] == options.hashN(item, i, options.totalBits);
    }
  }

  ghost function Empty(options: FilterOptions): seq<nat> {
    seq(options.NumWords(), _ => 0)
  }

  ghost function Inserted(options: FilterOptions, data: seq<nat>, item: string): (r: seq<nat>)
    requires WellSized(options, data)
    ensures WellSized(options, r)
  {
    PositionsInRange(options, data, item);
    SetBitsEffect(data, options.Hashes(item), 0);
    SetBits(data, options.Hashes(item))
  }

  /** What membership means: every bit of the item is set. */
  ghost predicate Contains(options: FilterOptions, data: seq<nat>, item: string) {
    forall h :: h in options.Positions(item) ==> HasBit(data, h)
  }

  /** An item is contained when the bit of each of its hashes is set. */
  lemma ContainsExactly(options: FilterOptions, data: seq<nat>, item: string)
    ensures Contains(options, data, item) <==>
            forall k: nat :: k < options.kHashes ==> HasBit(data, options.hashN(item, k, options.totalBits))
  {
    forall k: nat | k < options.kHashes ensures options.hashN(item, k, options.totalBits) in options.Positions(item) {
    }
  }

  lemma EmptyWellSized(options: FilterOptions)
    requires options.Valid()
    ensures WellSized(options, Empty(options))
  {
  }

  /** Inserting never loses an item and always finds the new one. */
  lemma InsertedContains(options: FilterOptions, data: seq<nat>, item: string, other: string)
    requires WellSized(options, data)
    ensures WellSized(options, Inserted(options, data, item))
    ensures Contains(options, Inserted(options, data, item), item)
    ensures Contains(options, data, other) ==> Contains(options, Inserted(options, data, item), other)
  {
    var hs := options.Hashes(item);
    PositionsInRange(options, data, item);
    SetBitsEffect(data, hs, 0);
    forall g ensures HasBit(SetBits(data, hs), g) <==> HasBit(data, g) || g in hs {
      SetBitsEffect(data, hs, g);
    }
    assert Elems(hs) == options.Positions(item);
    forall h | h in options.Positions(item) ensures h in hs {
      assert h in Elems(hs);
    }
  }

  /** Nothing but the item's own bits appears: a filter holds exactly the bits of
      what was inserted. */
  lemma InsertedExactly(options: FilterOptions, data: seq<nat>, item: string, g: nat)
    requires WellSized(options, data)
    ensures HasBit(Inserted(options, data, item), g) <==> HasBit(data, g) || g in options.Positions(item)
  {
    PositionsInRange(options, data, item);
    SetBitsEffect(data, options.Hashes(item), g);
    assert g in options.Hashes(item) <==> g in Elems(options.Hashes(item));
  }

  // Serialisation: each word as eight bytes, most significant first.

  function WordsToBytes(data: seq<nat>): (r: Bytes)
    ensures |r| == 8 * |data|
  {
    if |data| == 0 then [] else WordsToBytes(data[..|data| - 1]) + BigEndian(data[|data| - 1], 8)
  }

  /** Byte `j` of word `i`, the most significant byte first. */
  lemma {:induction false} BytePlace(data: seq<nat>, i: nat, j: nat)
    requires i < |data| && j < 8
    ensures WordsToBytes(data)[8 * i + j] == data[i] / Pow256(7 - j) % 256
  {
    var p, l := data[..|data| - 1], data[|data| - 1];
    if i < |data| - 1 {
      BytePlace(p, i, j);
    } else {
      BigEndianDigit(l, 8, j);
    }
  }

  function WordsAt(bytes: Bytes, n: nat): (r: seq<nat>)
    requires 8 * n <= |bytes|
    ensures |r| == n
  {
    if n == 0 then [] else WordsAt(bytes, n - 1) + [FromBigEndian(bytes[8 * n - 8..8 * n])]
  }

  lemma {:induction false} WordAt(bytes: Bytes, n: nat, i: nat)
    requires 8 * n <= |bytes| && i < n
    ensures WordsAt(bytes, n)[i] == FromBigEndian(bytes[8 * i..8 * i + 8])
  {
    if i < n - 1 { WordAt(bytes, n - 1, i); }
  }

  /** `n` words read from the front of the bytes; reading past the end throws. */
  function BytesToWords(bytes: Bytes, n: nat): Result<seq<nat>> {
    if 8 * n <= |bytes| then Success(WordsAt(bytes, n))
    else Failure("Offset is outside the bounds of the DataView")
  }

  /** Words below 2^64 survive the wire, whatever follows them. */
  lemma {:induction false} BytesRoundTrip(data: seq<nat>, rest: Bytes)
    requires WordsBounded(data)
    ensures BytesToWords(WordsToBytes(data) + rest, |data|) == Success(data)
  {
    if |data| > 0 {
      var p, l := data[..|data| - 1], data[|data| - 1];
      var word, bytes := BigEndian(l, 8), WordsToBytes(data) + rest;
      BytesRoundTrip(p, word + rest);
      assert bytes == WordsToBytes(p) + (word + rest);
      var at := 8 * |data| - 8;
      assert at == |WordsToBytes(p)|;
      assert bytes[at..8 * |data|] == word;
      Pow256Word();
      BigEndianRoundTrip(l, 8);
      assert WordsAt(bytes, |data|) == p + [l] == data;
    }
  }

  lemma FromBytesWellSized(options: FilterOptions, bytes: Bytes)
    requires options.Valid() && BytesToWords(bytes, options.NumWords()).Success?
    ensures WellSized(options, BytesToWords(bytes, options.NumWords()).value)
  {
    var r := BytesToWords(bytes, options.NumWords()).value;
    forall i | 0 <= i < |r| ensures r[i] < 0x1_0000_0000_0000_0000 {
      WordAt(bytes, options.NumWords(), i);
      FromBigEndianBound(bytes[8 * i..8 * i + 8]);
      Pow256Word();
    }
  }

  /** Does a received filter, in bytes, contain the item? */
  ghost predicate BytesContain(options: FilterOptions, bytes: Bytes, item: string) {
    var r := BytesToWords(bytes, options.NumWords());
    r.Success? && Contains(options, r.value, item)
  }

  /** No false negatives across the wire. */
  lemma SentFilterContains(options: FilterOptions, data: seq<nat>, item: string)
    requires WellSized(options, data)
    ensures BytesContain(options, WordsToBytes(data), item) <==> Contains(options, data, item)
  {
    BytesRoundTrip(data, []);
    assert WordsToBytes(data) + [] == WordsToBytes(data);
  }

  class BloomFilter {
    const options: FilterOptions
    const data: array<nat>

    ghost predicate Valid()
      reads this, data
    {
      WellSized(options, data[..])
    }

    constructor (options: FilterOptions)
      requires options.Valid()
      ensures Valid() && fresh(data) && this.options == options
      ensures data[..] == Empty(options)
    {
      this.options := options;
      this.data := new nat[options.NumWords()](_ => 0);
    }

    method ComputeHashes(item: string) returns (hashes: seq<nat>)
      ensures hashes == options.Hashes(item)
    {
      hashes := [];
      for i := 0 to options.kHashes
        invariant hashes == options.Hashes(item)[..i]
      {
        hashes := hashes + [options.hashN(item, i, options.totalBits)];
      }
    }

    method Insert(item: string)
      requires Valid()
      modifies data
      ensures Valid() && data[..] == Inserted(options, old(data[..]), item)
    {
      ghost var before := data[..];
      PositionsInRange(options, before, item);
      var hashes := ComputeHashes(item);
      for i := 0 to |hashes|
        invariant AllWithin(hashes[..i], |before|)
        invariant data[..] == SetBits(before, hashes[..i])
      {
        assert hashes[..i + 1][..i] == hashes[..i];
        var h := hashes[i];
        var intAddress, bitOffset := h / WORD_BITS, h % WORD_BITS;
        data[intAddress] := Or(data[intAddress], ShiftOne(bitOffset));
        assert data[..] == SetBit(SetBits(before, hashes[..i]), h);
      }
      assert hashes[..|hashes|] == hashes;
      InsertedContains(options, before, item, item);
    }

    /** Early exit on the first clear bit. */
    method Lookup(item: string) returns (found: bool)
      requires Valid()
      ensures found <==> Contains(options, data[..], item)
      ensures found <==>
              forall k: nat :: k < options.kHashes ==> HasBit(data[..], options.hashN(item, k, options.totalBits))
    {
      ContainsExactly(options, data[..], item);
      PositionsInRange(options, data[..], item);
      var hashes := ComputeHashes(item);
      assert Elems(hashes) == options.Positions(item);
      for i := 0 to |hashes|
        invariant forall j :: 0 <= j < i ==> HasBit(data[..], hashes[j])
      {
        var h := hashes[i];
        var intAddress, bitOffset := h / WORD_BITS, h % WORD_BITS;
        var currentInt := data[intAddress];
        OrTestsBit(currentInt, bitOffset);
        if currentInt != Or(currentInt, ShiftOne(bitOffset)) {
          assert h in Elems(hashes) && !HasBit(data[..], h);
          return false;
        }
      }
      forall h | h in options.Positions(item) ensures HasBit(data[..], h) {
        assert h in Elems(hashes);
      }
      return true;
    }

    method ToBytes() returns (bytes: Bytes)
      requires Valid()
      ensures bytes == WordsToBytes(data[..])
    {
      bytes := [];
      for i := 0 to data.Length
        invariant bytes == WordsToBytes(data[..i])
      {
        assert data[..i + 1][..i] == data[..i];
        bytes := bytes + BigEndian(data[i], 8);
      }
      assert data[..data.Length] == data[..];
    }

    /** `None` where the original throws a RangeError. */
    static method FromBytes(bytes: Bytes, options: FilterOptions) returns (r: Option<BloomFilter>)
      requires options.Valid()
      ensures r.Some? <==> BytesToWords(bytes, options.NumWords()).Success?
      ensures r.Some? ==> fresh(r.value) && fresh(r.value.data) && r.value.Valid() && r.value.options == options
      ensures r.Some? ==> r.value.data[..] == BytesToWords(bytes, options.NumWords()).value
    {
      var filter := new BloomFilter(options);
      var n := options.NumWords();
      for i := 0 to n
        invariant 8 * i <= |bytes|
        invariant filter.data[..i] == WordsAt(bytes, i)
      {
        if |bytes| < 8 * i + 8 {
          return None;
        }
        filter.data[i] := FromBigEndian(bytes[8 * i..8 * i + 8]);
      }
      assert filter.data[..] == filter.data[..n];
      FromBytesWellSized(options, bytes);
      r := Some(filter);
    }
  }
}
