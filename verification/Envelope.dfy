/** The framing of an encrypted payload: flags, payload size, payload, padding and an
    optional signature, put together before encryption and taken apart after it. The
    hash, signing and key recovery functions are parameters. */
module Envelope {
  import opened Basics
  import opened Bits

  const FLAGS_LENGTH: nat := 1
  const FLAG_MASK: nat := 3
  const IS_SIGNED_MASK: nat := 4
  const PADDING_TARGET: nat := 256
  const SIGNATURE_LENGTH: nat := 65
  const TWO_24: nat := 0x100_0000
  const TWO_32: nat := 0x1_0000_0000

  type Hash = Bytes -> Bytes

  type Signer = Bytes -> Signed

  type Recover = (Bytes, Bytes) -> Option<Bytes>

  /** A compact signature and its recovery byte. */
  type Signed = s: Bytes | |s| == SIGNATURE_LENGTH witness seq(SIGNATURE_LENGTH, _ => 0)

  datatype Signature = Signature(signature: Bytes, publicKey: Option<Bytes>)

  datatype Opened = Opened(payload: Bytes, sig: Option<Signature>)

  /** `s.slice(start, end)`: negative positions count from the end, and both are
      brought into the array. */
  function Slice(s: Bytes, start: int, end: int): (r: Bytes)
    ensures |r| <= |s|
    ensures 0 <= start <= end <= |s| ==> r == s[start..end]
  {
    var lo, hi := Position(start, |s|), Position(end, |s|);
    if lo <= hi then s[lo..hi] else []
  }

  function Position(i: int, length: nat): (r: nat)
    ensures r <= length
    ensures 0 <= i <= length ==> r == i
  {
    if i < 0 then Max(length + i, 0) else Min(i, length)
  }

  // Sizes.

  function LittleEndian(n: nat, w: nat): (r: Bytes)
    ensures |r| == w
  {
    if w == 0 then [] else [n % 256] + LittleEndian(n / 256, w - 1)
  }

  function FromLittleEndian(s: Bytes): nat {
    if |s| == 0 then 0 else s[0] + 256 * FromLittleEndian(s[1..])
  }

  /** How many base-256 digits a payload length takes. */
  function FieldSize(n: nat): (r: nat)
    ensures r >= 1
  {
    if n < 256 then 1 else 1 + FieldSize(n / 256)
  }

  lemma {:induction false} FieldSizeFits(n: nat)
    ensures n < Pow256(FieldSize(n))
    ensures n >= 256 ==> Pow256(FieldSize(n) - 1) <= n
  {
    if n >= 256 {
      FieldSizeFits(n / 256);
      assert Pow256(1) == 256 * Pow256(0);
    }
  }

  lemma {:induction false} Pow256Monotone(a: nat, b: nat)
    requires a <= b
    ensures Pow256(a) <= Pow256(b)
  {
    if a < b { Pow256Monotone(a, b - 1); }
  }

  lemma FieldSizeThresholds(n: nat)
    ensures FieldSize(n) <= 3 <==> n < TWO_24
    ensures FieldSize(n) <= 4 <==> n < TWO_32
  {
    FieldSizeFits(n);
    var k := FieldSize(n);
    assert Pow256(3) == TWO_24 && Pow256(4) == TWO_32 by {
      assert Pow256(1) == 256 && Pow256(2) == 65536;
    }
    if k <= 3 { Pow256Monotone(k, 3); } else { Pow256Monotone(3, k - 1); }
    if k <= 4 { Pow256Monotone(k, 4); } else { Pow256Monotone(4, k - 1); }
  }

  lemma {:induction false} LittleEndianRoundTrip(n: nat, w: nat)
    requires n < Pow256(w)
    ensures FromLittleEndian(LittleEndian(n, w)) == n
  {
    if w > 0 {
      LittleEndianRoundTrip(n / 256, w - 1);
      assert LittleEndian(n, w)[1..] == LittleEndian(n / 256, w - 1);
    }
  }

  /** Byte `k` is the digit of weight 256 to the `k`. */
  lemma {:induction false} LittleEndianDigit(n: nat, w: nat, k: nat)
    requires k < w
    ensures LittleEndian(n, w)[k] == n / Pow256(k) % 256
  {
    if k > 0 {
      LittleEndianDigit(n / 256, w - 1, k - 1);
      DivideTwice(n, 256, Pow256(k - 1));
    }
  }

  lemma {:induction false} LittleEndianPrefix(n: nat, w: nat, k: nat)
    requires k <= w
    ensures LittleEndian(n, w)[..k] == LittleEndian(n, k)
  {
    if k > 0 {
      LittleEndianPrefix(n / 256, w - 1, k - 1);
      assert LittleEndian(n, w)[..k] == [n % 256] + LittleEndian(n / 256, w - 1)[..k - 1];
    }
  }

  function Zeros(z: nat): (r: Bytes)
    ensures |r| == z
  {
    if z == 0 then [] else [0] + Zeros(z - 1)
  }

  lemma {:induction false} ZeroPadding(s: Bytes, z: nat)
    ensures FromLittleEndian(s + Zeros(z)) == FromLittleEndian(s)
  {
    if |s| > 0 {
      ZeroPadding(s[1..], z);
      assert (s + Zeros(z))[1..] == s[1..] + Zeros(z);
    } else if z > 0 {
      ZeroPadding(s, z - 1);
      assert s + Zeros(z) == Zeros(z) && s + Zeros(z - 1) == Zeros(z)[1..];
    }
  }

  lemma {:induction false} FromLittleEndianBound(s: Bytes)
    ensures FromLittleEndian(s) < Pow256(|s|)
  {
    if |s| > 0 { FromLittleEndianBound(s[1..]); }
  }

  /** `getInt32`: two's complement. */
  function ToInt32(n: nat): int {
    if n < 0x8000_0000 then n else n - TWO_32
  }

  // Taking an envelope apart.

  function SizeOfPayloadSizeField(message: Bytes): nat
    requires |message| > 0
  {
    And(message[0], FLAG_MASK)
  }

  predicate IsMessageSigned(message: Bytes)
    requires |message| > 0
  {
    And(message[0], IS_SIGNED_MASK) == IS_SIGNED_MASK
  }

  /** The size field padded on the right to four bytes. */
  function SizeBytes(message: Bytes, fieldSize: nat): (r: Bytes)
    requires fieldSize <= 3
    ensures |r| == 4
  {
    var field := Slice(message, 1, 1 + fieldSize);
    SliceLength(message, 1, 1 + fieldSize);
    field + Zeros(4 - |field|)
  }

  lemma SliceLength(s: Bytes, start: nat, end: nat)
    requires start <= end
    ensures |Slice(s, start, end)| <= end - start
  {
  }

  function PayloadSize(message: Bytes, fieldSize: nat): int
    requires fieldSize <= 3
  {
    ToInt32(FromLittleEndian(SizeBytes(message, fieldSize)))
  }

  lemma {:induction false} MaskBound(a: nat)
    ensures And(a, FLAG_MASK) <= 3
  {
    assert And(a / 2 / 2, 0) == 0;
    assert And(a / 2, 1) <= 1;
  }

  function GetSignature(message: Bytes): Bytes {
    Slice(message, |message| - SIGNATURE_LENGTH, |message|)
  }

  function GetHash(message: Bytes, isSigned: bool, keccak: Hash): Bytes {
    if isSigned then keccak(Slice(message, 0, |message| - SIGNATURE_LENGTH)) else keccak(message)
  }

  /** `Failure` where a read falls off the end, `None` where `undefined` is returned. */
  function PostCipher(message: Bytes, keccak: Hash, recover: Recover): Result<Option<Opened>> {
    if |message| == 0 then Failure("Offset is outside the bounds of the DataView")
    else
      MaskBound(message[0]);
      var fieldSize := SizeOfPayloadSizeField(message);
      if fieldSize == 0 then Success(None)
      else
        var start := 1 + fieldSize;
        var payload := Slice(message, start, start + PayloadSize(message, fieldSize));
        if !IsMessageSigned(message) then Success(Some(Opened(payload, None)))
        else
          var signature := GetSignature(message);
          if |signature| < SIGNATURE_LENGTH then Failure("Offset is outside the bounds of the DataView")
          else
            var hash := GetHash(message, true, keccak);
            Success(Some(Opened(payload, Some(Signature(signature, recover(hash, signature))))))
  }

  /** The size read back is never negative and below 2^24, whatever the bytes. */
  lemma PayloadSizeBound(message: Bytes, fieldSize: nat)
    requires fieldSize <= 3
    ensures 0 <= PayloadSize(message, fieldSize) < TWO_24
  {
    var field := Slice(message, 1, 1 + fieldSize);
    SliceLength(message, 1, 1 + fieldSize);
    ZeroPadding(field, 4 - |field|);
    FromLittleEndianBound(field);
    Pow256Monotone(|field|, 3);
    assert Pow256(3) == TWO_24;
  }

  /** So no payload of 2^24 bytes or more is ever returned. */
  lemma PostCipherBound(message: Bytes, keccak: Hash, recover: Recover)
    ensures var r := PostCipher(message, keccak, recover);
            r.Success? && r.value.Some? ==> |r.value.value.payload| < TWO_24
  {
    if |message| > 0 {
      MaskBound(message[0]);
      var fieldSize := SizeOfPayloadSizeField(message);
      PayloadSizeBound(message, fieldSize);
      SliceLength(message, 1 + fieldSize, 1 + fieldSize + PayloadSize(message, fieldSize));
    }
  }

  // Putting one together.

  /** Flags as they stand once every bit is set. */
  function Flags(payload: Bytes, isSigned: bool): byte {
    (if isSigned then Or(Or(0, FieldSize(|payload|)), IS_SIGNED_MASK) else Or(0, FieldSize(|payload|))) % 256
  }

  function SizeField(payload: Bytes): Bytes {
    LittleEndian(|payload| % TWO_32, 4)[..Min(4, FieldSize(|payload|))]
  }

  function RawSize(payload: Bytes, isSigned: bool): nat {
    FLAGS_LENGTH + FieldSize(|payload|) + |payload| + if isSigned then SIGNATURE_LENGTH else 0
  }

  function PaddingSize(payload: Bytes, isSigned: bool): (r: nat)
    ensures 1 <= r <= PADDING_TARGET
    ensures (RawSize(payload, isSigned) + r) % PADDING_TARGET == 0
  {
    PADDING_TARGET - RawSize(payload, isSigned) % PADDING_TARGET
  }

  /** `validateDataIntegrity`. */
  predicate IntegrityHolds(value: Bytes, expectedSize: nat) {
    |value| == expectedSize && (expectedSize <= 3 || exists i :: 0 <= i < |value| && value[i] != 0)
  }

  /** The bytes that are hashed and signed. */
  function Body(payload: Bytes, isSigned: bool, pad: Bytes): Bytes {
    [Flags(payload, isSigned)] + SizeField(payload) + payload + pad
  }

  function PreCiphered(payload: Bytes, signer: Option<Signer>, pad: Bytes, keccak: Hash): Bytes {
    var body := Body(payload, signer.Some?, pad);
    if signer.None? then body else body + signer.value(keccak(body))
  }

  lemma {:induction false} OrZero(f: nat)
    ensures Or(0, f) == f
  {
    if f > 0 { OrZero(f / 2); }
  }

  lemma SetSignedFlag(f: nat)
    requires 1 <= f <= 3
    ensures Or(f, IS_SIGNED_MASK) == f + 4
  {
    assert Or(1, 4) == 5;
    assert Or(2, 4) == 6;
    assert Or(3, 4) == 7;
  }

  lemma UnsignedFlags(f: nat)
    requires 1 <= f <= 3
    ensures And(f, FLAG_MASK) == f && And(f, IS_SIGNED_MASK) == 0
  {
    assert And(1, 3) == 1 && And(1, 4) == 0;
    assert And(2, 3) == 2 && And(2, 4) == 0;
    assert And(3, 3) == 3 && And(3, 4) == 0;
  }

  lemma SignedFlagsMasked(f: nat)
    requires 1 <= f <= 3
    ensures And(f + 4, FLAG_MASK) == f
  {
    assert And(5, 3) == 1;
    assert And(6, 3) == 2;
    assert And(7, 3) == 3;
  }

  lemma SignedFlagsSigned(f: nat)
    requires 1 <= f <= 3
    ensures And(f + 4, IS_SIGNED_MASK) == 4
  {
    assert And(5, 4) == 4;
    assert And(6, 4) == 4;
    assert And(7, 4) == 4;
  }

  /** Padding brings every envelope of a payload below 2^32 bytes to a multiple of 256. */
  lemma EnvelopeLength(payload: Bytes, signer: Option<Signer>, pad: Bytes, keccak: Hash)
    requires |pad| == PaddingSize(payload, signer.Some?)
    ensures 1 <= |pad| <= 256
    ensures |payload| < 0x1_0000_0000 ==> |PreCiphered(payload, signer, pad, keccak)| % 256 == 0
  {
    FieldSizeThresholds(|payload|);
    if |payload| < TWO_32 {
      assert |SizeField(payload)| == FieldSize(|payload|);
      assert |PreCiphered(payload, signer, pad, keccak)| == RawSize(payload, signer.Some?) + |pad|;
    }
  }

  /** Below 2^24 bytes the size field is read back as the payload length. */
  lemma SizeReadBack(payload: Bytes, message: Bytes)
    requires |payload| < TWO_24
    requires var k := FieldSize(|payload|);
      |message| >= 1 + k && message[1..1 + k] == SizeField(payload)
    ensures FieldSize(|payload|) <= 3 && PayloadSize(message, FieldSize(|payload|)) == |payload|
  {
    var n, k := |payload|, FieldSize(|payload|);
    hide FieldSize, LittleEndian, FromLittleEndian, SizeBytes, Zeros;
    FieldSizeThresholds(n);
    FieldSizeFits(n);
    SizeBytesAre(message, k);
    SmallSizeField(payload);
    LittleEndianRoundTrip(n, k);
    ZeroPadding(LittleEndian(n, k), 4 - k);
  }

  lemma SmallSizeField(payload: Bytes)
    requires |payload| < TWO_24 && FieldSize(|payload|) <= 3
    ensures SizeField(payload) == LittleEndian(|payload|, FieldSize(|payload|))
  {
    hide FieldSize, LittleEndian;
    LittleEndianPrefix(|payload|, 4, FieldSize(|payload|));
  }

  /** Slicing the field out of a message that is long enough. */
  lemma SizeBytesAre(message: Bytes, k: nat)
    requires k <= 3 && |message| >= 1 + k
    ensures SizeBytes(message, k) == message[1..1 + k] + Zeros(4 - k)
  {
    assert Slice(message, 1, 1 + k) == message[1..1 + k];
  }

  lemma SizeFieldLength(payload: Bytes)
    ensures |SizeField(payload)| == Min(4, FieldSize(|payload|))
  {
  }

  /** What follows the size field of an envelope, and what its flags say. */
  lemma BodyParts(payload: Bytes, isSigned: bool, pad: Bytes, tail: Bytes)
    requires |payload| < TWO_24
    ensures var k, m := FieldSize(|payload|), Body(payload, isSigned, pad) + tail;
            && k <= 3 && |m| >= 1 + k + |payload|
            && m[1..1 + k] == SizeField(payload)
            && m[1 + k..1 + k + |payload|] == payload
            && SizeOfPayloadSizeField(m) == k
            && (IsMessageSigned(m) <==> isSigned)
  {
    var k := FieldSize(|payload|);
    hide FieldSize, LittleEndian, Or, And, SizeField, Flags;
    FieldSizeThresholds(|payload|);
    SizeFieldLength(payload);
    FlagsRead(payload, isSigned);
    Segments(Flags(payload, isSigned), SizeField(payload), payload, pad, tail);
  }

  lemma FlagsRead(payload: Bytes, isSigned: bool)
    requires FieldSize(|payload|) <= 3
    ensures And(Flags(payload, isSigned), FLAG_MASK) == FieldSize(|payload|)
    ensures And(Flags(payload, isSigned), IS_SIGNED_MASK) == if isSigned then IS_SIGNED_MASK else 0
  {
    var k := FieldSize(|payload|);
    FlagsAre(payload, isSigned);
    hide FieldSize, Or, And, Flags;
    UnsignedFlags(k);
    SignedFlagsMasked(k);
    SignedFlagsSigned(k);
  }

  lemma FlagsAre(payload: Bytes, isSigned: bool)
    requires FieldSize(|payload|) <= 3
    ensures Flags(payload, isSigned) == FieldSize(|payload|) + if isSigned then IS_SIGNED_MASK else 0
  {
    hide FieldSize, Or;
    OrZero(FieldSize(|payload|));
    SetSignedFlag(FieldSize(|payload|));
  }

  lemma Segments(flags: byte, field: Bytes, payload: Bytes, pad: Bytes, tail: Bytes)
    ensures var m := [flags] + field + payload + pad + tail;
            && m[0] == flags && m[1..1 + |field|] == field
            && m[1 + |field|..1 + |field| + |payload|] == payload
  {
    var m := [flags] + field + payload + pad + tail;
    var head := [flags] + field;
    assert m[..|head|] == head;
    assert m[1..1 + |field|] == m[..|head|][1..];
  }

  /** The bytes of an envelope below 2^24: flags with the size of the size field and the
      signed bit, the payload length least significant byte first, the payload, the
      padding, and the 65 bytes of a signature over all that. */
  lemma EnvelopeLayout(payload: Bytes, signer: Option<Signer>, pad: Bytes, keccak: Hash)
    requires |payload| < 0x100_0000
    ensures var n, e := |payload|, PreCiphered(payload, signer, pad, keccak);
            var k := if n < 0x100 then 1 else if n < 0x1_0000 then 2 else 3;
            var body := 1 + k + n + |pad|;
            && |e| == body + (if signer.Some? then 65 else 0)
            && e[0] == k + (if signer.Some? then 4 else 0)
            && e[1] == n % 0x100 && (k > 1 ==> e[2] == n / 0x100 % 0x100) && (k > 2 ==> e[3] == n / 0x1_0000)
            && e[1 + k..1 + k + n] == payload && e[1 + k + n..body] == pad
            && (signer.Some? ==> e[body..] == signer.value(keccak(e[..body])))
  {
    var n, k := |payload|, FieldSize(|payload|);
    var tail: Bytes := if signer.None? then [] else signer.value(keccak(Body(payload, signer.Some?, pad)));
    SmallFieldSize(n);
    FlagsAre(payload, signer.Some?);
    SmallSizeField(payload);
    FieldDigits(n, k);
    UnfoldPreCiphered(payload, signer, pad, keccak);
    UnfoldBody(payload, signer.Some?, pad);
    Segments(Flags(payload, signer.Some?), SizeField(payload), payload, pad, tail);
    hide FieldSize, LittleEndian, Flags, SizeField, Body, PreCiphered;
    LastSegments(Flags(payload, signer.Some?), SizeField(payload), payload, pad, tail);
  }

  lemma SmallFieldSize(n: nat)
    requires n < 0x100_0000
    ensures FieldSize(n) == if n < 0x100 then 1 else if n < 0x1_0000 then 2 else 3
  {
    assert FieldSize(n) == if n < 256 then 1 else 1 + FieldSize(n / 256);
    assert FieldSize(n / 256) == if n / 256 < 256 then 1 else 1 + FieldSize(n / 256 / 256);
    assert n / 256 / 256 < 256;
  }

  lemma FieldDigits(n: nat, k: nat)
    requires n < 0x100_0000 && 1 <= k <= 3
    ensures var s := LittleEndian(n, k);
            && s[0] == n % 0x100 && (k > 1 ==> s[1] == n / 0x100 % 0x100) && (k > 2 ==> s[2] == n / 0x1_0000)
  {
    hide LittleEndian;
    assert Pow256(0) == 1 && Pow256(1) == 256 && Pow256(2) == 65536;
    LittleEndianDigit(n, k, 0);
    if k > 1 { LittleEndianDigit(n, k, 1); }
    if k > 2 { LittleEndianDigit(n, k, 2); }
  }

  lemma LastSegments(flags: byte, field: Bytes, payload: Bytes, pad: Bytes, tail: Bytes)
    ensures var m := [flags] + field + payload + pad + tail;
            var body := 1 + |field| + |payload| + |pad|;
            && m[1 + |field| + |payload|..body] == pad && m[body..] == tail
            && m[..body] == [flags] + field + payload + pad
            && forall i :: 0 <= i < |field| ==> m[1 + i] == field[i]
  {
  }

  /** What `postCipher` should return for what `preCipher` was given. */
  function Expected(payload: Bytes, signer: Option<Signer>, pad: Bytes, keccak: Hash, recover: Recover): Opened {
    if signer.None? then Opened(payload, None)
    else
      var hash := keccak(Body(payload, true, pad));
      var signature := signer.value(hash);
      Opened(payload, Some(Signature(signature, recover(hash, signature))))
  }

  /** Round trip, for any padding, signed or not: the payload comes back, with the
      signature that was made and the key recovered from the very hash that was
      signed, exactly when the payload is shorter than 2^24 bytes. */
  lemma RoundTrip(payload: Bytes, signer: Option<Signer>, pad: Bytes, keccak: Hash, recover: Recover)
    ensures PostCipher(PreCiphered(payload, signer, pad, keccak), keccak, recover) ==
            Success(Some(Expected(payload, signer, pad, keccak, recover)))
            <==> |payload| < TWO_24
  {
    var message := PreCiphered(payload, signer, pad, keccak);
    if |payload| < TWO_24 {
      ShortRoundTrip(payload, signer, pad, keccak, recover);
    } else {
      PostCipherBound(message, keccak, recover);
    }
  }

  lemma ShortRoundTrip(payload: Bytes, signer: Option<Signer>, pad: Bytes, keccak: Hash, recover: Recover)
    requires |payload| < TWO_24
    ensures PostCipher(PreCiphered(payload, signer, pad, keccak), keccak, recover) ==
            Success(Some(Expected(payload, signer, pad, keccak, recover)))
  {
    hide *;
    var body := Body(payload, signer.Some?, pad);
    var tail: Bytes := if signer.None? then [] else signer.value(keccak(body));
    UnfoldPreCiphered(payload, signer, pad, keccak);
    BodyParts(payload, signer.Some?, pad, tail);
    SizeReadBack(payload, body + tail);
    PostCipherSteps(body + tail, FieldSize(|payload|), |payload|, keccak, recover);
    UnfoldExpected(payload, signer, pad, keccak, recover);
    if signer.Some? { Ends(body, tail); }
  }

  lemma UnfoldPreCiphered(payload: Bytes, signer: Option<Signer>, pad: Bytes, keccak: Hash)
    ensures var body := Body(payload, signer.Some?, pad);
            var tail: Bytes := if signer.None? then [] else signer.value(keccak(body));
            PreCiphered(payload, signer, pad, keccak) == body + tail
  {
    hide Body;
  }

  lemma UnfoldExpected(payload: Bytes, signer: Option<Signer>, pad: Bytes, keccak: Hash, recover: Recover)
    ensures Expected(payload, signer, pad, keccak, recover) ==
            if signer.None? then Opened(payload, None)
            else
              var hash := keccak(Body(payload, true, pad));
              Opened(payload, Some(Signature(signer.value(hash), recover(hash, signer.value(hash)))))
  {
    hide Body;
  }

  /** What `postCipher` makes of a message whose sizes are known. */
  lemma PostCipherSteps(message: Bytes, k: nat, n: nat, keccak: Hash, recover: Recover)
    requires 1 <= k <= 3 && 1 + k + n <= |message|
    requires SizeOfPayloadSizeField(message) == k && PayloadSize(message, k) == n
    ensures var r := PostCipher(message, keccak, recover);
            var signature := GetSignature(message);
            if !IsMessageSigned(message) then r == Success(Some(Opened(message[1 + k..1 + k + n], None)))
            else |signature| == SIGNATURE_LENGTH ==>
              r == Success(Some(Opened(message[1 + k..1 + k + n],
                   Some(Signature(signature, 
                     recover(keccak(Slice(message, 0, |message| - SIGNATURE_LENGTH)), signature))))))
  {
    hide SizeOfPayloadSizeField, IsMessageSigned, PayloadSize, Slice, And, GetSignature;
  }

  lemma Ends(body: Bytes, tail: Bytes)
    requires |tail| == SIGNATURE_LENGTH
    ensures Slice(body + tail, 0, |body + tail| - SIGNATURE_LENGTH) == body
    ensures GetSignature(body + tail) == tail
  {
    assert (body + tail)[..|body|] == body && (body + tail)[|body|..] == tail;
  }

  /** From 2^24 up to 2^32 bytes the four-byte field size falls on the signed flag and
      outside the mask, and nothing is returned. */
  lemma LongPayloadLost(payload: Bytes, signer: Option<Signer>, pad: Bytes, keccak: Hash, recover: Recover)
    requires TWO_24 <= |payload| < TWO_32
    ensures PostCipher(PreCiphered(payload, signer, pad, keccak), keccak, recover) == Success(None)
  {
    FieldSizeThresholds(|payload|);
    var message := PreCiphered(payload, signer, pad, keccak);
    assert FieldSize(|payload|) == 4;
    assert Or(0, 4) == 4 && Or(4, 4) == 4 && And(4, 3) == 0;
    hide FieldSize, LittleEndian, Or, And;
    assert Flags(payload, signer.Some?) == 4;
    assert message[0] == Flags(payload, signer.Some?);
  }

  /** With a signature scheme that recovers the signer's key, the key that comes back
      is the signer's. */
  lemma SignerRecovered(payload: Bytes, signer: Signer, publicKey: Bytes, pad: Bytes, keccak: Hash, recover: Recover)
    requires |payload| < TWO_24
    requires forall hash :: recover(hash, signer(hash)) == Some(publicKey)
    ensures var r := PostCipher(PreCiphered(payload, Some(signer), pad, keccak), keccak, recover);
            && r.Success? && r.value.Some? && r.value.value.payload == payload
            && r.value.value.sig.Some? && r.value.value.sig.value.publicKey == Some(publicKey)
  {
    ShortRoundTrip(payload, Some(signer), pad, keccak, recover);
  }

  // As written: a loop over real quotients, an array whose first byte is or-ed.

  /** `i /= 256` divides exactly; the loop counts digits all the same. */
  method ComputeSizeOfPayloadSizeField(payload: Bytes) returns (s: nat)
    ensures s == FieldSize(|payload|)
  {
    s := 1;
    var i := |payload| as real;
    ghost var n: nat := |payload|;
    while i >= 256.0
      invariant n as real <= i < (n + 1) as real
      invariant FieldSize(|payload|) == s - 1 + FieldSize(n)
      decreases n
    {
      QuotientFloor(i, n);
      i := i / 256.0;
      n := n / 256;
      s := s + 1;
    }
  }

  lemma QuotientFloor(i: real, n: nat)
    requires n as real <= i < (n + 1) as real
    ensures (n / 256) as real <= i / 256.0 < (n / 256 + 1) as real
  {
    var q := n / 256;
    assert 256 * q <= n <= 256 * q + 255;
    assert 256.0 * q as real <= i < 256.0 * (q as real + 1.0);
  }

  /** Adds the size field to `msg` and its length to the flags. */
  method AddPayloadSizeField(msg: Bytes, payload: Bytes) returns (r: Bytes)
    requires |msg| > 0
    ensures r == [Or(msg[0], FieldSize(|payload|)) % 256] + msg[1..] + SizeField(payload)
  {
    var fieldSize := ComputeSizeOfPayloadSizeField(payload);
    var field := LittleEndian(|payload| % TWO_32, 4);
    field := field[..Min(4, fieldSize)];
    r := msg + field;
    r := r[0 := Or(r[0], fieldSize) % 256];
  }

  method PreCipher(payload: Bytes, signer: Option<Signer>, pad: Bytes, keccak: Hash) returns (r: Result<Bytes>)
    ensures r.Success? <==> IntegrityHolds(pad, PaddingSize(payload, signer.Some?))
    ensures r.Success? ==> r.value == PreCiphered(payload, signer, pad, keccak)
  {
    hide Or, FieldSize, SizeField, Body, Flags, LittleEndian, IntegrityHolds;
    var envelope: Bytes := [0];
    envelope := AddPayloadSizeField(envelope, payload);
    FirstFlags(payload);
    assert envelope == [Flags(payload, false)] + SizeField(payload);
    envelope := envelope + payload;
    var fieldSize := ComputeSizeOfPayloadSizeField(payload);
    var rawSize := FLAGS_LENGTH + fieldSize + |payload|;
    if signer.Some? {
      rawSize := rawSize + SIGNATURE_LENGTH;
    }
    var remainder := rawSize % PADDING_TARGET;
    var paddingSize := PADDING_TARGET - remainder;
    if !IntegrityHolds(pad, paddingSize) {
      return Failure("failed to generate random padding");
    }
    envelope := envelope + pad;
    UnfoldBody(payload, false, pad);
    if signer.Some? {
      envelope := envelope[0 := Or(envelope[0], IS_SIGNED_MASK) % 256];
      SignedBody(payload, pad);
      var signature := signer.value(keccak(envelope));
      envelope := envelope + signature;
    }
    r := Success(envelope);
  }

  lemma UnfoldBody(payload: Bytes, isSigned: bool, pad: Bytes)
    ensures Body(payload, isSigned, pad) == [Flags(payload, isSigned)] + SizeField(payload) + payload + pad
  {
    hide Flags, SizeField;
  }

  lemma FirstFlags(payload: Bytes)
    ensures Flags(payload, false) == Or(0, FieldSize(|payload|)) % 256
  {
    hide Or, FieldSize;
  }

  /** Flagging the first byte once the rest is in place. */
  lemma SignedBody(payload: Bytes, pad: Bytes)
    ensures Body(payload, false, pad)[0 := Or(Body(payload, false, pad)[0], IS_SIGNED_MASK) % 256] ==
            Body(payload, true, pad)
  {
    FlagsTwice(FieldSize(|payload|));
    hide Or, FieldSize, SizeField;
  }

  /** Keeping a byte before setting the signed bit or after comes to the same. */
  lemma FlagsTwice(f: nat)
    ensures Or(Or(0, f) % 256, IS_SIGNED_MASK) % 256 == Or(Or(0, f), IS_SIGNED_MASK) % 256
  {
    LowBits(Or(0, f), 4, 8);
    assert Pow2(8) == 256;
  }

  lemma {:induction false} LowBits(a: nat, b: nat, k: nat)
    ensures Or(a % Pow2(k), b) % Pow2(k) == Or(a, b) % Pow2(k)
  {
    if k > 0 {
      ModStep(a, k);
      ModStep(Or(a, b), k);
      ModStep(Or(a % Pow2(k), b), k);
      LowBits(a / 2, b / 2, k - 1);
      OrHalves(a, b);
      OrHalves(a % Pow2(k), b);
    }
  }

  lemma OrHalves(a: nat, b: nat)
    ensures Or(a, b) / 2 == Or(a / 2, b / 2)
    ensures Or(a, b) % 2 == if a % 2 == 1 || b % 2 == 1 then 1 else 0
  {
  }

  lemma ModStep(a: nat, k: nat)
    requires k > 0
    ensures a % Pow2(k) == 2 * (a / 2 % Pow2(k - 1)) + a % 2
  {
    var p := Pow2(k - 1);
    var q, r := a / 2 / p, a / 2 % p;
    assert a / 2 == p * q + r;
    assert a == (2 * p) * q + (2 * r + a % 2) by {
      assert (2 * p) * q == 2 * (p * q);
    }
    Quotient(a, 2 * p, q, 2 * r + a % 2);
  }
}
