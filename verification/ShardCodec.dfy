/** The relay shard field of a node record: an index list for fewer than 64 shards,
    a bit vector of 1024 shards otherwise. */
module ShardCodec {
  import opened Basics
  import opened Bits

  datatype ShardInfo = ShardInfo(clusterId: nat, shards: seq<nat>)

  const BIT_VECTOR_LENGTH: nat := 130
  const BIT_VECTOR_SHARDS: nat := 1024
  const LIST_LIMIT: nat := 64
  const TWO_16: nat := 0x1_0000

  // What the bytes mean.

  /** Shard `i` in the bit vector: most significant bit first, after the cluster. */
  predicate ShardBit(buf: Bytes, i: nat)
    requires |buf| == BIT_VECTOR_LENGTH && i < BIT_VECTOR_SHARDS
  {
    Bit(buf[i / 8 + 2], 7 - i % 8)
  }

  function Uint16At(buf: Bytes, offset: nat): nat
    requires offset + 2 <= |buf|
  {
    FromBigEndian(buf[offset..offset + 2])
  }

  /** The shards below `n` whose bits are set, in order. */
  function SetShards(buf: Bytes, n: nat): seq<nat>
    requires |buf| == BIT_VECTOR_LENGTH && n <= BIT_VECTOR_SHARDS
  {
    if n == 0 then [] else SetShards(buf, n - 1) + if ShardBit(buf, n - 1) then [n - 1] else []
  }

  /** The first `n` entries of the index list. */
  function ListedShards(buf: Bytes, n: nat): (r: seq<nat>)
    requires 3 + 2 * n <= |buf|
    ensures |r| == n
  {
    if n == 0 then [] else ListedShards(buf, n - 1) + [Uint16At(buf, 3 + 2 * (n - 1))]
  }

  function Decoded(buf: Bytes): Result<ShardInfo> {
    if |buf| < 3 then Failure("Insufficient data")
    else if |buf| == BIT_VECTOR_LENGTH then
      Success(ShardInfo(Uint16At(buf, 0), SetShards(buf, BIT_VECTOR_SHARDS)))
    else if |buf| < 3 + 2 * (buf[2] as int) then Failure("Unexpected end of data")
    else Success(ShardInfo(Uint16At(buf, 0), ListedShards(buf, buf[2])))
  }

  ghost predicate IsIndexList(info: ShardInfo, buf: Bytes) {
    && |info.shards| < LIST_LIMIT
    && |buf| == 3 + 2 * |info.shards|
    && buf[..2] == BigEndian(info.clusterId, 2)
    && buf[2] == |info.shards|
    && forall i :: 0 <= i < |info.shards| ==> buf[3 + 2 * i..5 + 2 * i] == BigEndian(info.shards[i], 2)
  }

  ghost predicate IsBitVector(info: ShardInfo, buf: Bytes) {
    && |info.shards| >= LIST_LIMIT
    && |buf| == BIT_VECTOR_LENGTH
    && buf[..2] == BigEndian(info.clusterId, 2)
    && forall i: nat :: i < BIT_VECTOR_SHARDS ==> (ShardBit(buf, i) <==> i in info.shards)
  }

  ghost predicate AllBelow(s: seq<nat>, bound: nat) {
    forall x :: x in s ==> x < bound
  }

  ghost predicate StrictlyIncreasing(s: seq<nat>) {
    forall i, j :: 0 <= i < j < |s| ==> s[i] < s[j]
  }

  // Round trips.

  /** What `setUint16` and `getUint16` keep of a number. */
  lemma Word(n: nat)
    ensures FromBigEndian(BigEndian(n, 2)) == n % TWO_16
  {
    var s := BigEndian(n, 2);
    assert BigEndian(n / 256, 1) == [n / 256 % 256];
    assert s == [n / 256 % 256, n % 256];
    assert s[..1] == [n / 256 % 256];
    assert FromBigEndian([n / 256 % 256]) == n / 256 % 256 by {
      assert [n / 256 % 256][..0] == [];
    }
    TwoDigits(n);
  }

  lemma TwoDigits(n: nat)
    ensures n / 256 % 256 * 256 + n % 256 == n % TWO_16
  {
    var q, r := n / 256 / 256, n / 256 % 256 * 256 + n % 256;
    assert n == TWO_16 * q + r && 0 <= r < TWO_16;
  }

  lemma {:induction false} ListedAre(info: ShardInfo, buf: Bytes, n: nat)
    requires IsIndexList(info, buf) && n <= |info.shards|
    ensures forall i :: 0 <= i < n ==> ListedShards(buf, n)[i] == info.shards[i] % TWO_16
  {
    hide BigEndian, FromBigEndian;
    if n > 0 {
      ListedAre(info, buf, n - 1);
      Word(info.shards[n - 1]);
      assert buf[3 + 2 * (n - 1)..3 + 2 * (n - 1) + 2] == buf[3 + 2 * (n - 1)..5 + 2 * (n - 1)];
    }
  }

  /** Fewer than 64 shards: the length is odd, so never taken for a bit vector, and
      the list decodes to itself exactly when every id fits 16 bits. */
  lemma IndexListRoundTrip(info: ShardInfo, buf: Bytes)
    requires IsIndexList(info, buf)
    ensures |buf| % 2 == 1 && |buf| != BIT_VECTOR_LENGTH
    ensures Decoded(buf).Success? && Decoded(buf).value.clusterId == info.clusterId % TWO_16
    ensures |Decoded(buf).value.shards| == |info.shards|
    ensures forall i :: 0 <= i < |info.shards| ==> Decoded(buf).value.shards[i] == info.shards[i] % TWO_16
    ensures Decoded(buf) == Success(info) <==> info.clusterId < TWO_16 && AllBelow(info.shards, TWO_16)
  {
    Word(info.clusterId);
    assert buf[0..2] == buf[..2];
    ListedAre(info, buf, |info.shards|);
    var got := Decoded(buf).value;
    ReducedAreSame(got.shards, info.shards);
  }

  /** Reducing a list modulo 2^16 changes nothing exactly when all of it fits. */
  lemma ReducedAreSame(got: seq<nat>, shards: seq<nat>)
    requires |got| == |shards| && forall i :: 0 <= i < |shards| ==> got[i] == shards[i] % TWO_16
    ensures got == shards <==> AllBelow(shards, TWO_16)
  {
    if AllBelow(shards, TWO_16) {
      forall i | 0 <= i < |shards| ensures got[i] == shards[i] {
        assert shards[i] in shards;
      }
    }
    if got == shards {
      forall x | x in shards ensures x < TWO_16 {
        var i :| 0 <= i < |shards| && shards[i] == x;
        assert got[i] == shards[i] % TWO_16;
      }
    }
  }

  /** The decoder's scan lists exactly the set bits, each once and in order. */
  lemma {:induction false} SetShardsAre(buf: Bytes, n: nat)
    requires |buf| == BIT_VECTOR_LENGTH && n <= BIT_VECTOR_SHARDS
    ensures forall x: nat :: x in SetShards(buf, n) <==> x < n && ShardBit(buf, x)
    ensures StrictlyIncreasing(SetShards(buf, n))
  {
    if n > 0 {
      SetShardsAre(buf, n - 1);
      var p := SetShards(buf, n - 1);
      forall i | 0 <= i < |p| ensures p[i] < n - 1 {
        assert p[i] in p;
      }
    }
  }

  /** A strictly increasing list is determined by its elements. */
  lemma {:induction false} IncreasingDetermined(s: seq<nat>, t: seq<nat>)
    requires StrictlyIncreasing(s) && StrictlyIncreasing(t)
    requires forall x: nat :: x in s <==> x in t
    ensures s == t
  {
    BothEmpty(s, t);
    if |s| > 0 {
      SameLast(s, t);
      SameLast(t, s);
      var p, q := s[..|s| - 1], t[..|t| - 1];
      assert s == p + [s[|s| - 1]] && t == q + [t[|t| - 1]];
      forall x: nat ensures x in p <==> x in q {
        assert x in s <==> x in t;
      }
      IncreasingDetermined(p, q);
    }
  }

  lemma BothEmpty(s: seq<nat>, t: seq<nat>)
    requires forall x: nat :: x in s <==> x in t
    ensures |s| == 0 <==> |t| == 0
  {
    if |s| > 0 { assert s[0] in s; }
    if |t| > 0 { assert t[0] in t; }
  }

  lemma SameLast(s: seq<nat>, t: seq<nat>)
    requires StrictlyIncreasing(s) && StrictlyIncreasing(t) && |s| > 0 && |t| > 0
    requires forall x :: x in s ==> x in t
    ensures s[|s| - 1] <= t[|t| - 1]
  {
    assert s[|s| - 1] in t;
    var i :| 0 <= i < |t| && t[i] == s[|s| - 1];
  }

  /** 64 shards or more: the bit vector decodes to the strictly increasing list of the
      same set, hence to the same list exactly when that was increasing already. */
  lemma BitVectorRoundTrip(info: ShardInfo, buf: Bytes)
    requires IsBitVector(info, buf) && AllBelow(info.shards, BIT_VECTOR_SHARDS)
    ensures Decoded(buf).Success? && Decoded(buf).value.clusterId == info.clusterId % TWO_16
    ensures StrictlyIncreasing(Decoded(buf).value.shards)
    ensures Elems(Decoded(buf).value.shards) == Elems(info.shards)
    ensures Decoded(buf) == Success(info) <==> info.clusterId < TWO_16 && StrictlyIncreasing(info.shards)
  {
    Word(info.clusterId);
    assert buf[0..2] == buf[..2];
    SetShardsAre(buf, BIT_VECTOR_SHARDS);
    var got := Decoded(buf).value.shards;
    assert forall x: nat :: x in got <==> x in info.shards;
    if StrictlyIncreasing(info.shards) {
      IncreasingDetermined(got, info.shards);
    }
  }

  /** The two bytes of a number: the high one first. */
  lemma WordBytes(s: Bytes, n: nat)
    requires |s| == 2 && s == BigEndian(n, 2)
    ensures s[0] == n / 256 % 256 && s[1] == n % 256
  {
    BigEndianDigit(n, 2, 0);
    BigEndianDigit(n, 2, 1);
    assert Pow256(1) == 256 * Pow256(0) == 256;
  }

  /** The list, byte by byte: cluster, count, and two bytes for each shard. */
  lemma IndexListLayout(info: ShardInfo, buf: Bytes)
    requires IsIndexList(info, buf)
    ensures |info.shards| < 64 && |buf| == 3 + 2 * |info.shards|
    ensures buf[0] == info.clusterId / 256 % 256 && buf[1] == info.clusterId % 256 && buf[2] == |info.shards|
    ensures forall i: nat :: i < |info.shards| ==>
              buf[3 + 2 * i] == info.shards[i] / 256 % 256 && buf[4 + 2 * i] == info.shards[i] % 256
  {
    WordBytes(buf[..2], info.clusterId);
    forall i: nat | i < |info.shards|
      ensures buf[3 + 2 * i] == info.shards[i] / 256 % 256 && buf[4 + 2 * i] == info.shards[i] % 256
    {
      WordBytes(buf[3 + 2 * i..5 + 2 * i], info.shards[i]);
    }
  }

  /** The vector, bit by bit: after the cluster, shard `i` is the binary digit of weight
      2^(7 - i % 8) of the byte `i / 8`. */
  lemma BitVectorLayout(info: ShardInfo, buf: Bytes)
    requires IsBitVector(info, buf)
    ensures |info.shards| >= 64 && |buf| == 130
    ensures buf[0] == info.clusterId / 256 % 256 && buf[1] == info.clusterId % 256
    ensures forall i: nat :: i < 1024 ==> (buf[2 + i / 8] / Pow2(7 - i % 8) % 2 == 1 <==> i in info.shards)
  {
    WordBytes(buf[..2], info.clusterId);
    forall i: nat | i < 1024
      ensures buf[2 + i / 8] / Pow2(7 - i % 8) % 2 == 1 <==> i in info.shards
    {
      BitIsDigit(buf[2 + i / 8], 7 - i % 8);
      assert ShardBit(buf, i) <==> i in info.shards;
    }
  }

  // The codec as written, over a buffer.

  /** `setUint16`: the low 16 bits, big-endian. */
  method SetUint16(view: array<byte>, offset: nat, n: nat)
    requires offset + 2 <= view.Length
    modifies view
    ensures view[..] == old(view[..offset]) + BigEndian(n, 2) + old(view[offset + 2..])
  {
    assert BigEndian(n, 2) == [n / 256 % 256, n % 256] by {
      assert BigEndian(n / 256, 1) == [n / 256 % 256];
    }
    view[offset] := n / 256 % 256;
    view[offset + 1] := n % 256;
  }

  /** `view.setUint8(k, view.getUint8(k) | (1 << bit))`. */
  method SetBit(view: array<byte>, k: nat, bit: nat)
    requires k < view.Length && bit < 8
    modifies view
    ensures forall j :: 0 <= j < view.Length && j != k ==> view[j] == old(view[j])
    ensures forall i: nat :: Bit(view[k], i) <==> old(Bit(view[k], i)) || i == bit
  {
    var was := view[k];
    Pow2Monotone(bit, 7);
    assert Pow2(7) == 128 && Pow2(8) == 256;
    OrBound(was, ShiftOne(bit), 8);
    view[k] := Or(was, ShiftOne(bit));
    forall i: nat ensures Bit(view[k], i) <==> Bit(was, i) || i == bit {
      OrBits(was, ShiftOne(bit), i);
      ShiftOneBits(bit, i);
    }
  }

  method EncodeRelayShard(info: ShardInfo) returns (r: Result<Bytes>)
    ensures |info.shards| < LIST_LIMIT ==> r.Success? && IsIndexList(info, r.value)
    ensures |info.shards| >= LIST_LIMIT ==> (r.Success? <==> AllBelow(info.shards, BIT_VECTOR_SHARDS))
    ensures |info.shards| >= LIST_LIMIT && r.Success? ==> IsBitVector(info, r.value)
  {
    var totalLength := if |info.shards| >= LIST_LIMIT then BIT_VECTOR_LENGTH else 3 + 2 * |info.shards|;
    var view := new byte[totalLength](_ => 0);
    SetUint16(view, 0, info.clusterId);
    if |info.shards| >= LIST_LIMIT {
      r := EncodeBitVector(info, view);
    } else {
      EncodeIndexList(info, view);
      r := Success(view[..]);
    }
  }

  method EncodeIndexList(info: ShardInfo, view: array<byte>)
    requires |info.shards| < LIST_LIMIT && view.Length == 3 + 2 * |info.shards|
    requires view[..2] == BigEndian(info.clusterId, 2)
    modifies view
    ensures IsIndexList(info, view[..])
  {
    hide BigEndian, FromBigEndian;
    view[2] := |info.shards|;
    var offset := 3;
    for i := 0 to |info.shards|
      invariant offset == 3 + 2 * i
      invariant view[..2] == BigEndian(info.clusterId, 2) && view[2] == |info.shards|
      invariant forall j :: 0 <= j < i ==> view[3 + 2 * j..5 + 2 * j] == BigEndian(info.shards[j], 2)
    {
      ghost var before := view[..];
      SetUint16(view, offset, info.shards[i]);
      assert view[..offset] == before[..offset];
      assert view[offset..offset + 2] == BigEndian(info.shards[i], 2);
      assert view[..2] == before[..offset][..2] && view[2] == before[..offset][2];
      forall j | 0 <= j < i ensures view[3 + 2 * j..5 + 2 * j] == BigEndian(info.shards[j], 2) {
        SliceKept(view[..], before, offset, 3 + 2 * j, 5 + 2 * j);
      }
      offset := offset + 2;
    }
  }

  lemma SliceKept(s: Bytes, t: Bytes, n: nat, lo: nat, hi: nat)
    requires lo <= hi <= n <= |s| && n <= |t| && s[..n] == t[..n]
    ensures s[lo..hi] == t[lo..hi]
  {
    assert s[lo..hi] == s[..n][lo..hi];
    assert t[lo..hi] == t[..n][lo..hi];
  }

  method EncodeBitVector(info: ShardInfo, view: array<byte>) returns (r: Result<Bytes>)
    requires |info.shards| >= LIST_LIMIT && view.Length == BIT_VECTOR_LENGTH
    requires view[..2] == BigEndian(info.clusterId, 2)
    requires forall k :: 2 <= k < view.Length ==> view[k] == 0
    modifies view
    ensures r.Success? <==> AllBelow(info.shards, BIT_VECTOR_SHARDS)
    ensures r.Success? ==> IsBitVector(info, r.value)
  {
    forall i: nat | i < BIT_VECTOR_SHARDS ensures !ShardBit(view[..], i) {
      ZeroHasNoBits(7 - i % 8);
    }
    hide BigEndian, Bit;
    for k := 0 to |info.shards|
      invariant view[..2] == BigEndian(info.clusterId, 2)
      invariant AllBelow(info.shards[..k], BIT_VECTOR_SHARDS)
      invariant forall i: nat :: i < BIT_VECTOR_SHARDS ==> (ShardBit(view[..], i) <==> i in info.shards[..k])
    {
      var index := info.shards[k];
      var byteIndex, bitIndex := index / 8 + 2, 7 - index % 8;
      if byteIndex >= view.Length {
        assert index in info.shards;
        return Failure("Offset is outside the bounds of the DataView");
      }
      ghost var before := view[..];
      SetBit(view, byteIndex, bitIndex);
      assert view[..2] == before[..2];
      assert info.shards[..k + 1] == info.shards[..k] + [index];
      forall i: nat | i < BIT_VECTOR_SHARDS ensures ShardBit(view[..], i) <==> i in info.shards[..k + 1] {
        assert ShardBit(before, i) <==> i in info.shards[..k];
        SamePlace(i, index);
      }
    }
    assert info.shards[..|info.shards|] == info.shards;
    r := Success(view[..]);
  }

  lemma SamePlace(i: nat, j: nat)
    ensures i / 8 == j / 8 && 7 - i % 8 == 7 - j % 8 <==> i == j
  {
  }

  method DecodeRelayShard(bytes: Bytes) returns (r: Result<ShardInfo>)
    ensures r == Decoded(bytes)
  {
    if |bytes| < 3 {
      return Failure("Insufficient data");
    }
    var clusterId := Uint16At(bytes, 0);
    var shards := [];
    if |bytes| == BIT_VECTOR_LENGTH {
      for i := 0 to BIT_VECTOR_SHARDS
        invariant shards == SetShards(bytes, i)
      {
        AndTestsBit(bytes[i / 8 + 2], 7 - i % 8);
        if And(bytes[i / 8 + 2], ShiftOne(7 - i % 8)) != 0 {
          shards := shards + [i];
        }
      }
    } else {
      var numIndices, offset := bytes[2], 3;
      for i := 0 to numIndices
        invariant offset == 3 + 2 * i <= |bytes|
        invariant shards == ListedShards(bytes, i)
      {
        if offset + 1 >= |bytes| {
          return Failure("Unexpected end of data");
        }
        shards := shards + [Uint16At(bytes, offset)];
        offset := offset + 2;
      }
    }
    r := Success(ShardInfo(clusterId, shards));
  }
}
