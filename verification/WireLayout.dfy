/** The bytes of an SDS message, spelled out: which tag bytes stand where, and what
    the digits of a length or a timestamp are. */
module WireLayout {
  import opened Basics
  import opened Messages
  import Bits
  import Utf8
  import opened Wire
  import opened WireCodec

  // Varints.

  lemma {:induction false} Pow128Positive(k: nat)
    ensures Pow128(k) > 0
  {
    if k > 0 { Pow128Positive(k - 1); }
  }

  /** As many digits as the number has in base 128, at least one, the least significant
      first; every byte but the last says that more follow. */
  lemma {:induction false} VarintDigits(n: nat)
    ensures var r := Varint(n);
            && n < Pow128(|r|) && (|r| > 1 ==> Pow128(|r| - 1) <= n)
            && forall i: nat :: i < |r| ==> r[i] == Digit(n, i) + (if i < |r| - 1 then 128 else 0)
    decreases n
  {
    if n < 128 {
      assert Pow128(1) == 128 * Pow128(0) == 128;
      assert Digit(n, 0) == n;
    } else {
      var tail := Varint(n / 128);
      assert Varint(n) == [128 + n % 128] + tail;
      VarintDigits(n / 128);
      LengthStep(n, |tail|);
      hide Varint, Digit, Pow128;
      forall i: nat | i <= |tail|
        ensures Varint(n)[i] == Digit(n, i) + (if i < |tail| then 128 else 0)
      {
        NextDigit(n, i);
      }
    }
  }

  /** The digit of weight 128^i. */
  ghost function Digit(n: nat, i: nat): nat {
    Pow128Positive(i);
    n / Pow128(i) % 128
  }

  lemma NextDigit(n: nat, i: nat)
    ensures Digit(n, i) == if i == 0 then n % 128 else Digit(n / 128, i - 1)
  {
    if i > 0 {
      Pow128Positive(i - 1);
      Bits.DivideTwice(n, 128, Pow128(i - 1));
    }
  }

  lemma LengthStep(n: nat, k: nat)
    requires k > 0 && n / 128 < Pow128(k) && (k > 1 ==> Pow128(k - 1) <= n / 128) && n >= 128
    ensures n < Pow128(k + 1) && Pow128(k) <= n
  {
    assert k == 1 ==> Pow128(k) == 128 * Pow128(0) == 128;
  }

  /** Reading fails exactly when none of the next `left` bytes ends a varint; else the
      bytes up to the first that does are taken as the digits, whether or not the
      encoding is the shortest. */
  lemma {:induction false} VarintReadAs(buf: Bytes, pos: nat, left: nat)
    requires pos <= |buf|
    ensures VarintFrom(buf, pos, left).Got? <==> exists k: nat :: EndsAt(buf, pos, left, k)
    ensures var r := VarintFrom(buf, pos, left);
            r.Got? ==>
              && EndsAt(buf, pos, left, r.pos - pos - 1)
              && r.value < Pow128(r.pos - pos)
              && forall i: nat :: i < r.pos - pos ==> Digit(r.value, i) == buf[pos + i] % 128
    decreases left
  {
    if pos == |buf| || left == 0 {
    } else if buf[pos] < 128 {
      assert EndsAt(buf, pos, left, 0);
      assert Pow128(1) == 128 * Pow128(0) == 128;
      NextDigit(buf[pos], 0);
    } else {
      VarintReadAs(buf, pos + 1, left - 1);
      var rest, r := VarintFrom(buf, pos + 1, left - 1), VarintFrom(buf, pos, left);
      forall k: nat ensures EndsAt(buf, pos, left, k) <==> k > 0 && EndsAt(buf, pos + 1, left - 1, k - 1) {
        EndsLater(buf, pos, left, k);
      }
      if rest.Got? {
        assert r.value == buf[pos] % 128 + 128 * rest.value;
        assert r.value / 128 == rest.value && r.value % 128 == buf[pos] % 128;
        var k: nat :| EndsAt(buf, pos + 1, left - 1, k);
        assert EndsAt(buf, pos, left, k + 1);
        hide Digit, EndsAt, VarintFrom;
        forall i: nat | i < r.pos - pos ensures Digit(r.value, i) == buf[pos + i] % 128 {
          NextDigit(r.value, i);
          if i > 0 { assert Digit(rest.value, i - 1) == buf[pos + 1 + (i - 1)] % 128; }
        }
      }
    }
  }

  /** A varint of at most `left` bytes at `pos` ends `k` bytes further on. */
  ghost predicate EndsAt(buf: Bytes, pos: nat, left: nat, k: nat) {
    && k < left && pos + k < |buf| && buf[pos + k] < 128
    && forall i :: pos <= i < pos + k ==> buf[i] >= 128
  }

  lemma EndsLater(buf: Bytes, pos: nat, left: nat, k: nat)
    requires pos < |buf| && left > 0 && buf[pos] >= 128
    ensures EndsAt(buf, pos, left, k) <==> k > 0 && EndsAt(buf, pos + 1, left - 1, k - 1)
  {
  }

  // Fields.

  ghost function BytesPart(tag: Bytes, b: Option<Bytes>): Bytes {
    if b.None? then [] else tag + Varint(|b.value|) + b.value
  }

  ghost function TextPart(tag: Bytes, s: string): Bytes {
    BytesPart(tag, if s == "" then None else Some(Utf8.Encode(s)))
  }

  /** A history entry: the id under field 1, the hint under 2, the sender under 3. */
  ghost function EntryPart(e: HistoryEntry): Bytes {
    TextPart([10], e.messageId)
    + BytesPart([18], e.retrievalHint)
    + BytesPart([26], if e.senderId.None? then None else Some(Utf8.Encode(e.senderId.value)))
  }

  ghost function EntriesPart(tag: Bytes, es: seq<HistoryEntry>): Bytes {
    if |es| == 0 then [] else BytesPart(tag, Some(EntryPart(es[0]))) + EntriesPart(tag, es[1..])
  }

  lemma Tags()
    ensures Varint(10) == [10] && Varint(18) == [18] && Varint(26) == [26] && Varint(80) == [80]
    ensures Varint(90) == [90] && Varint(98) == [98] && Varint(106) == [106] && Varint(162) == [162, 1]
  {
    assert Varint(1) == [1];
  }

  lemma OptionalPart(number: nat, b: Option<Bytes>)
    ensures OptionalBytesOf(number, b) == BytesPart(Varint(number * 8 + 2), b)
  {
    hide Varint;
    if b.Some? {
      assert Varint(number * 8 + 2) + Delimited(b.value)
             == Varint(number * 8 + 2) + Varint(|b.value|) + b.value;
    }
  }

  lemma EntryLayout(e: HistoryEntry)
    ensures EncodeFields(EntryFields(e)) == EntryPart(e)
  {
    hide Varint, EncodeFields, EntryFields, OptionalBytesOf, BytesPart, Utf8.Encode;
    Tags();
    EntryFieldsEncoding(e);
    OptionalPart(1, TextOption(e.messageId));
    OptionalPart(2, e.retrievalHint);
    OptionalPart(3, SenderOption(e.senderId));
  }

  lemma FieldLayout(number: nat, payload: Bytes)
    ensures EncodeMessageFields([Plain(BytesField(number, payload))])
            == BytesPart(Varint(number * 8 + 2), Some(payload))
  {
    OptionalPart(number, Some(payload));
    OneMessageField(Plain(BytesField(number, payload)));
    hide Varint, EncodeMessageFields;
  }

  lemma BytesLayout(number: nat, b: Option<Bytes>)
    ensures EncodeMessageFields(OptionalBytes(number, b)) == BytesPart(Varint(number * 8 + 2), b)
  {
    hide Varint, EncodeMessageFields;
    EmptyEncoding();
    if b.Some? { FieldLayout(number, b.value); }
  }

  lemma TextLayout(number: nat, s: string)
    ensures EncodeMessageFields(TextField(number, s)) == TextPart(Varint(number * 8 + 2), s)
  {
    hide Varint, EncodeMessageFields, Utf8.Encode;
    EmptyEncoding();
    if s != "" { FieldLayout(number, Utf8.Encode(s)); }
  }

  lemma StampLayout(t: Option<nat>)
    ensures EncodeMessageFields(StampField(t)) == if t.None? then [] else Varint(80) + Varint(t.value % TWO_64)
  {
    hide Varint, EncodeMessageFields;
    EmptyEncoding();
    if t.Some? { OneMessageField(StampField(t)[0]); }
  }

  lemma NestedLayout(number: nat, e: HistoryEntry)
    ensures EncodeMessageFields([Nested(number, EntryFields(e))])
            == BytesPart(Varint(number * 8 + 2), Some(EntryPart(e)))
  {
    hide Varint, EncodeMessageFields, EncodeFields, EntryFields, EntryPart;
    OneMessageField(Nested(number, EntryFields(e)));
    EntryLayout(e);
    OptionalPart(number, Some(EntryPart(e)));
  }

  lemma {:induction false} EntriesPartSnoc(tag: Bytes, es: seq<HistoryEntry>, e: HistoryEntry)
    ensures EntriesPart(tag, es + [e]) == EntriesPart(tag, es) + BytesPart(tag, Some(EntryPart(e)))
  {
    hide EntryPart, BytesPart;
    if |es| == 0 {
      assert es + [e] == [e] && [e][1..] == [];
      assert EntriesPart(tag, []) == [];
    } else {
      assert (es + [e])[1..] == es[1..] + [e];
      EntriesPartSnoc(tag, es[1..], e);
    }
  }

  lemma {:induction false} EntriesLayout(number: nat, es: seq<HistoryEntry>)
    ensures EncodeMessageFields(EntriesFields(number, es)) == EntriesPart(Varint(number * 8 + 2), es)
  {
    hide Varint, EncodeMessageFields, EntryFields, EntryPart, BytesPart;
    EmptyEncoding();
    if |es| > 0 {
      var front, last := es[..|es| - 1], es[|es| - 1];
      assert es == front + [last];
      EntriesLayout(number, front);
      NestedLayout(number, last);
      EncodeMessageFieldsConcat(EntriesFields(number, front), [Nested(number, EntryFields(last))]);
      EntriesPartSnoc(Varint(number * 8 + 2), front, last);
    }
  }

  /** The whole encoding, tag byte by tag byte: the three strings when not empty, the
      timestamp modulo 2^64, one part for each entry of the causal history, the filter,
      one part for each repair request, the content under field 20. */
  lemma MessageLayout(m: Message)
    ensures Encode(m) ==
            TextPart([10], m.senderId) + TextPart([18], m.messageId) + TextPart([26], m.channelId)
            + (if m.lamportTimestamp.None? then []
               else [80] + Varint(m.lamportTimestamp.value % 0x1_0000_0000_0000_0000))
            + EntriesPart([90], m.causalHistory) + BytesPart([98], m.bloomFilter)
            + EntriesPart([106], m.repairRequest) + BytesPart([162, 1], m.content)
  {
    hide Varint, Encode, EncodeMessageFields, TextField, StampField, EntriesFields, OptionalBytes;
    hide TextPart, BytesPart, EntriesPart;
    Tags();
    MessageEncoding(m);
    TextLayout(1, m.senderId);
    TextLayout(2, m.messageId);
    TextLayout(3, m.channelId);
    StampLayout(m.lamportTimestamp);
    EntriesLayout(11, m.causalHistory);
    BytesLayout(12, m.bloomFilter);
    EntriesLayout(13, m.repairRequest);
    BytesLayout(20, m.content);
  }

  /** One character of each length. */
  lemma Utf8Samples()
    ensures Utf8.EncodeChar('A') == [0x41] && Utf8.EncodeChar('\U{E9}') == [0xC3, 0xA9]
    ensures Utf8.EncodeChar('\U{20AC}') == [0xE2, 0x82, 0xAC]
    ensures Utf8.EncodeChar('\U{1F600}') == [0xF0, 0x9F, 0x98, 0x80]
  {
  }
}
