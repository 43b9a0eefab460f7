/** The protobuf codec as written, against the encoding and decoding of `Wire`: a
    writer that is appended to, a reader with a cursor. */
module WireCodec {
  import opened Basics
  import opened Messages
  import Utf8
  import opened Wire

  class Writer {
    var buf: Bytes

    constructor ()
      ensures buf == []
    {
      buf := [];
    }

    method Uint32(n: nat)
      modifies this
      ensures buf == old(buf) + Varint(n)
    {
      WriteVarint(n);
    }

    method Uint64(n: nat)
      modifies this
      ensures buf == old(buf) + Varint(n % TWO_64)
    {
      WriteVarint(n % TWO_64);
    }

    method WriteVarint(n: nat)
      modifies this
      ensures buf == old(buf) + Varint(n)
    {
      var v := n;
      while v >= 128
        invariant buf + Varint(v) == old(buf) + Varint(n)
      {
        assert Varint(v) == [128 + v % 128] + Varint(v / 128);
        buf := buf + [128 + v % 128];
        v := v / 128;
      }
      buf := buf + [v];
    }

    method Raw(b: Bytes)
      modifies this
      ensures buf == old(buf) + Delimited(b)
    {
      WriteVarint(|b|);
      buf := buf + b;
    }

    method Text(s: string)
      modifies this
      ensures buf == old(buf) + Delimited(Utf8.Encode(s))
    {
      Raw(Utf8.Encode(s));
    }

    /** The nested entry is written apart and then length-delimited, as `fork` and
        `ldelim` do. */
    method Entry(e: HistoryEntry)
      modifies this
      ensures buf == old(buf) + Delimited(EncodeFields(EntryFields(e)))
    {
      hide Varint, Delimited, EncodeFields, Utf8.Encode;
      EntryFieldsEncoding(e);
      var inner := new Writer();
      if e.messageId != "" {
        inner.Uint32(10);
        inner.Text(e.messageId);
      }
      assert inner.buf == OptionalBytesOf(1, TextOption(e.messageId));
      if e.retrievalHint.Some? {
        inner.Uint32(18);
        inner.Raw(e.retrievalHint.value);
      }
      ghost var firstTwo := inner.buf;
      assert firstTwo == OptionalBytesOf(1, TextOption(e.messageId)) + OptionalBytesOf(2, e.retrievalHint);
      if e.senderId.Some? {
        inner.Uint32(26);
        inner.Text(e.senderId.value);
      }
      assert inner.buf == firstTwo + OptionalBytesOf(3, SenderOption(e.senderId));
      Raw(inner.buf);
    }
  }

  lemma {:induction false} EncodeFieldsConcat(a: seq<Field>, b: seq<Field>)
    ensures EncodeFields(a + b) == EncodeFields(a) + EncodeFields(b)
  {
    if |a| == 0 {
      assert a + b == b;
    } else {
      assert (a + b)[1..] == a[1..] + b;
      EncodeFieldsConcat(a[1..], b);
    }
  }

  lemma OneFieldEncoding(number: nat, payload: Bytes)
    ensures EncodeFields([BytesField(number, payload)]) == Varint(number * 8 + 2) + Delimited(payload)
  {
    var fs := [BytesField(number, payload)];
    UnfoldFields(fs);
    assert fs[1..] == [];
  }

  function OptionalField(number: nat, b: Option<Bytes>): seq<Field> {
    if b.Some? then [BytesField(number, b.value)] else []
  }

  function OptionalBytesOf(number: nat, b: Option<Bytes>): Bytes {
    if b.Some? then Varint(number * 8 + 2) + Delimited(b.value) else []
  }

  lemma OptionalFieldEncoding(number: nat, b: Option<Bytes>)
    ensures EncodeFields(OptionalField(number, b)) == OptionalBytesOf(number, b)
  {
    hide EncodeFields, Varint, Delimited;
    if b.Some? {
      OneFieldEncoding(number, b.value);
    } else {
      NoFields([]);
    }
  }

  function TextOption(s: string): Option<Bytes> {
    if s != "" then Some(Utf8.Encode(s)) else None
  }

  function SenderOption(s: Option<string>): Option<Bytes> {
    if s.Some? then Some(Utf8.Encode(s.value)) else None
  }

  lemma EntryFieldsAre(e: HistoryEntry)
    ensures EntryFields(e) ==
            OptionalField(1, TextOption(e.messageId)) + OptionalField(2, e.retrievalHint) +
            OptionalField(3, SenderOption(e.senderId))
  {
    hide Utf8.Encode;
  }

  lemma EntryFieldsEncoding(e: HistoryEntry)
    ensures EncodeFields(EntryFields(e)) ==
            OptionalBytesOf(1, TextOption(e.messageId)) + OptionalBytesOf(2, e.retrievalHint) +
            OptionalBytesOf(3, SenderOption(e.senderId))
  {
    hide *;
    var a, b := OptionalField(1, TextOption(e.messageId)), OptionalField(2, e.retrievalHint);
    var c := OptionalField(3, SenderOption(e.senderId));
    EntryFieldsAre(e);
    EncodeFieldsConcat(a + b, c);
    EncodeFieldsConcat(a, b);
    OptionalFieldEncoding(1, TextOption(e.messageId));
    OptionalFieldEncoding(2, e.retrievalHint);
    OptionalFieldEncoding(3, SenderOption(e.senderId));
  }

  lemma {:induction false} EncodeMessageFieldsConcat(a: seq<MessageField>, b: seq<MessageField>)
    ensures EncodeMessageFields(a + b) == EncodeMessageFields(a) + EncodeMessageFields(b)
  {
    if |a| == 0 {
      assert a + b == b;
    } else {
      assert (a + b)[1..] == a[1..] + b;
      EncodeMessageFieldsConcat(a[1..], b);
    }
  }

  lemma OneMessageField(mf: MessageField)
    ensures EncodeMessageFields([mf]) == Varint(FieldTag(mf)) + FieldBody(mf)
  {
    UnfoldMessageFields([mf]);
    assert [mf][1..] == [];
  }

  lemma EmptyEncoding()
    ensures EncodeMessageFields([]) == []
  {
  }

  method WriteText(w: Writer, number: nat, s: string)
    modifies w
    ensures w.buf == old(w.buf) + EncodeMessageFields(TextField(number, s))
  {
    hide EncodeMessageFields, Varint, Delimited, Utf8.Encode;
    EmptyEncoding();
    if s != "" {
      OneMessageField(TextField(number, s)[0]);
      w.Uint32(number * 8 + 2);
      w.Text(s);
    }
  }

  method WriteBytes(w: Writer, number: nat, b: Option<Bytes>)
    modifies w
    ensures w.buf == old(w.buf) + EncodeMessageFields(OptionalBytes(number, b))
  {
    hide EncodeMessageFields, Varint, Delimited;
    EmptyEncoding();
    if b.Some? {
      OneMessageField(OptionalBytes(number, b)[0]);
      w.Uint32(number * 8 + 2);
      w.Raw(b.value);
    }
  }

  method WriteEntries(w: Writer, number: nat, es: seq<HistoryEntry>)
    modifies w
    ensures w.buf == old(w.buf) + EncodeMessageFields(EntriesFields(number, es))
  {
    hide EncodeMessageFields, EncodeFields, EntryFields, Varint, Delimited;
    EmptyEncoding();
    for i := 0 to |es|
      invariant w.buf == old(w.buf) + EncodeMessageFields(EntriesFields(number, es[..i]))
    {
      assert es[..i + 1][..i] == es[..i];
      var mf := Nested(number, EntryFields(es[i]));
      EncodeMessageFieldsConcat(EntriesFields(number, es[..i]), [mf]);
      OneMessageField(mf);
      w.Uint32(number * 8 + 2);
      w.Entry(es[i]);
    }
    assert es[..|es|] == es;
  }

  /** `SdsMessage.encode`. */
  method EncodeSdsMessage(m: Message) returns (buf: Bytes)
    ensures buf == Encode(m)
  {
    hide EncodeMessageFields, EntriesFields, TextField, OptionalBytes, Varint, Encode;
    EmptyEncoding();
    MessageEncoding(m);
    var w := new Writer();
    WriteText(w, 1, m.senderId);
    WriteText(w, 2, m.messageId);
    WriteText(w, 3, m.channelId);
    if m.lamportTimestamp.Some? {
      OneMessageField(StampField(m.lamportTimestamp)[0]);
      w.Uint32(80);
      w.Uint64(m.lamportTimestamp.value);
    }
    WriteEntries(w, 11, m.causalHistory);
    WriteBytes(w, 12, m.bloomFilter);
    WriteEntries(w, 13, m.repairRequest);
    WriteBytes(w, 20, m.content);
    buf := w.buf;
  }

  lemma MessageEncoding(m: Message)
    ensures Encode(m) ==
            EncodeMessageFields(TextField(1, m.senderId)) + EncodeMessageFields(TextField(2, m.messageId)) +
            EncodeMessageFields(TextField(3, m.channelId)) + EncodeMessageFields(StampField(m.lamportTimestamp)) +
            EncodeMessageFields(EntriesFields(11, m.causalHistory)) +
            EncodeMessageFields(OptionalBytes(12, m.bloomFilter)) +
            EncodeMessageFields(EntriesFields(13, m.repairRequest)) + EncodeMessageFields(OptionalBytes(20, m.content))
  {
    hide EncodeMessageFields, TextField, OptionalBytes, StampField, EntriesFields;
    var f7 := EntriesFields(13, m.repairRequest) + OptionalBytes(20, m.content);
    var f6 := OptionalBytes(12, m.bloomFilter) + f7;
    var f5 := EntriesFields(11, m.causalHistory) + f6;
    var f4 := StampField(m.lamportTimestamp) + f5;
    var f3 := TextField(3, m.channelId) + f4;
    var f2 := TextField(2, m.messageId) + f3;
    EncodeMessageFieldsConcat(EntriesFields(13, m.repairRequest), OptionalBytes(20, m.content));
    EncodeMessageFieldsConcat(OptionalBytes(12, m.bloomFilter), f7);
    EncodeMessageFieldsConcat(EntriesFields(11, m.causalHistory), f6);
    EncodeMessageFieldsConcat(StampField(m.lamportTimestamp), f5);
    EncodeMessageFieldsConcat(TextField(3, m.channelId), f4);
    EncodeMessageFieldsConcat(TextField(2, m.messageId), f3);
    EncodeMessageFieldsConcat(TextField(1, m.senderId), f2);
  }

  class Reader {
    const buf: Bytes
    var pos: nat

    ghost predicate Valid()
      reads this
    {
      pos <= |buf|
    }

    constructor (buf: Bytes)
      ensures Valid() && this.buf == buf && pos == 0
    {
      this.buf := buf;
      pos := 0;
    }

    /** The digits are read in a loop; `None` is the exception. */
    method ReadVarint() returns (v: Option<nat>)
      requires Valid()
      modifies this
      ensures Valid()
      ensures v.None? <==> VarintFrom(buf, old(pos), MAX_VARINT).Bad?
      ensures v.Some? ==> VarintFrom(buf, old(pos), MAX_VARINT) == Got(v.value, pos)
    {
      hide VarintFrom, Pending;
      var left: nat, scale: nat, value: nat := MAX_VARINT, 1, 0;
      PendingStart(buf, pos);
      while true
        invariant Valid() && left <= MAX_VARINT
        invariant Pending(buf, old(pos), pos, left, value, scale)
        decreases left
      {
        PendingStep(buf, old(pos), pos, left, value, scale);
        if pos == |buf| || left == 0 {
          return None;
        }
        var b := buf[pos];
        pos := pos + 1;
        left := left - 1;
        value := value + scale * Low7(b);
        scale := 128 * scale;
        if b < 128 {
          return Some(value);
        }
      }
    }

    method ReadUint32() returns (v: Option<nat>)
      requires Valid()
      modifies this
      ensures Valid()
      ensures v.None? <==> Uint32From(buf, old(pos)).Bad?
      ensures v.Some? ==> Uint32From(buf, old(pos)) == Got(v.value, pos)
    {
      var r := ReadVarint();
      v := if r.None? then None else Some(r.value % TWO_32);
    }

    method ReadUint64() returns (v: Option<nat>)
      requires Valid()
      modifies this
      ensures Valid()
      ensures v.None? <==> Uint64From(buf, old(pos)).Bad?
      ensures v.Some? ==> Uint64From(buf, old(pos)) == Got(v.value, pos)
    {
      var r := ReadVarint();
      v := if r.None? then None else Some(r.value % TWO_64);
    }

    method ReadBytes() returns (v: Option<Bytes>)
      requires Valid()
      modifies this
      ensures Valid()
      ensures v.None? <==> BytesFrom(buf, old(pos)).Bad?
      ensures v.Some? ==> BytesFrom(buf, old(pos)) == Got(v.value, pos)
    {
      var n := ReadUint32();
      if n.None? || pos + n.value > |buf| {
        return None;
      }
      v := Some(buf[pos..pos + n.value]);
      pos := pos + n.value;
    }

    method ReadString() returns (v: Option<string>)
      requires Valid()
      modifies this
      ensures Valid()
      ensures v.None? <==> StringFrom(buf, old(pos)).Bad?
      ensures v.Some? ==> StringFrom(buf, old(pos)) == Got(v.value, pos)
    {
      var b := ReadBytes();
      v := if b.None? then None else Utf8.Decode(b.value);
    }

    method SkipType(wireType: nat) returns (ok: bool)
      requires Valid()
      modifies this
      ensures Valid()
      ensures ok <==> SkipFrom(buf, old(pos), wireType).Some?
      ensures ok ==> pos == SkipFrom(buf, old(pos), wireType).value
      decreases |buf| - pos, 1
    {
      match wireType
      case 0 =>
        var v := ReadVarint();
        ok := v.Some?;
      case 1 =>
        ok := pos + 8 <= |buf|;
        pos := if ok then pos + 8 else pos;
      case 2 =>
        var b := ReadBytes();
        ok := b.Some?;
      case 3 =>
        ok := SkipGroup();
      case 5 =>
        ok := pos + 4 <= |buf|;
        pos := if ok then pos + 4 else pos;
      case _ =>
        ok := false;
    }

    method SkipGroup() returns (ok: bool)
      requires Valid()
      modifies this
      ensures Valid()
      ensures ok <==> SkipGroupFrom(buf, old(pos)).Some?
      ensures ok ==> pos == SkipGroupFrom(buf, old(pos)).value
      decreases |buf| - pos, 0
    {
      while true
        invariant Valid() && old(pos) <= pos
        invariant SkipGroupFrom(buf, old(pos)) == SkipGroupFrom(buf, pos)
        decreases |buf| - pos
      {
        var t := ReadUint32();
        if t.None? {
          return false;
        }
        if t.value % 8 == 4 {
          return true;
        }
        ok := SkipType(t.value % 8);
        if !ok {
          return false;
        }
      }
    }

    /** `HistoryEntry.decode`. */
    method ReadEntry() returns (v: Option<HistoryEntry>)
      requires Valid()
      modifies this
      ensures Valid()
      ensures v.None? <==> EntryFrom(buf, old(pos)).Bad?
      ensures v.Some? ==> EntryFrom(buf, old(pos)) == Got(v.value, pos)
    {
      var length := ReadUint32();
      if length.None? {
        return None;
      }
      var obj, end := NO_ENTRY, pos + length.value;
      while pos < end
        invariant Valid()
        invariant EntryFrom(buf, old(pos)) == DecodeEntryFrom(buf, pos, end, obj)
        decreases |buf| - pos
      {
        var tag := ReadUint32();
        if tag.None? {
          return None;
        }
        var next := ReadEntryField(tag.value, obj);
        if next.None? {
          return None;
        }
        obj := next.value;
      }
      v := Some(obj);
    }

    method ReadEntryField(tag: nat, obj: HistoryEntry) returns (v: Option<HistoryEntry>)
      requires Valid()
      modifies this
      ensures Valid()
      ensures v.None? <==> DecodeEntryFieldFrom(buf, old(pos), tag, obj).Bad?
      ensures v.Some? ==> DecodeEntryFieldFrom(buf, old(pos), tag, obj) == Got(v.value, pos)
    {
      v := None;
      match tag / 8
      case 1 => {
        var s := ReadString();
        if s.Some? { v := Some(obj.(messageId := s.value)); }
      }
      case 2 => {
        var b := ReadBytes();
        if b.Some? { v := Some(obj.(retrievalHint := b)); }
      }
      case 3 => {
        var s := ReadString();
        if s.Some? { v := Some(obj.(senderId := s)); }
      }
      case _ => {
        var ok := SkipType(tag % 8);
        if ok { v := Some(obj); }
      }
    }

    method ReadField(tag: nat, obj: Message) returns (v: Option<Message>)
      requires Valid()
      modifies this
      ensures Valid()
      ensures v.None? <==> DecodeFieldFrom(buf, old(pos), tag, obj).Bad?
      ensures v.Some? ==> DecodeFieldFrom(buf, old(pos), tag, obj) == Got(v.value, pos)
    {
      v := None;
      match tag / 8
      case 1 => {
        var s := ReadString();
        if s.Some? { v := Some(obj.(senderId := s.value)); }
      }
      case 2 => {
        var s := ReadString();
        if s.Some? { v := Some(obj.(messageId := s.value)); }
      }
      case 3 => {
        var s := ReadString();
        if s.Some? { v := Some(obj.(channelId := s.value)); }
      }
      case 10 => {
        var t := ReadUint64();
        if t.Some? { v := Some(obj.(lamportTimestamp := t)); }
      }
      case 11 => {
        var e := ReadEntry();
        if e.Some? { v := Some(obj.(causalHistory := obj.causalHistory + [e.value])); }
      }
      case 12 => {
        var b := ReadBytes();
        if b.Some? { v := Some(obj.(bloomFilter := b)); }
      }
      case 13 => {
        var e := ReadEntry();
        if e.Some? { v := Some(obj.(repairRequest := obj.repairRequest + [e.value])); }
      }
      case 20 => {
        var b := ReadBytes();
        if b.Some? { v := Some(obj.(content := b)); }
      }
      case _ => {
        var ok := SkipType(tag % 8);
        if ok { v := Some(obj); }
      }
    }
  }

  /** `value` is what the digits before `pos` come to, `scale` what the next is worth. */
  ghost predicate Pending(buf: Bytes, start: nat, pos: nat, left: nat, value: nat, scale: nat)
    requires start <= |buf| && pos <= |buf|
  {
    VarintFrom(buf, start, MAX_VARINT) ==
    var rest := VarintFrom(buf, pos, left);
    if rest.Bad? then Bad else Got(value + scale * rest.value, rest.pos)
  }

  lemma PendingStart(buf: Bytes, pos: nat)
    requires pos <= |buf|
    ensures Pending(buf, pos, pos, MAX_VARINT, 0, 1)
  {
    hide VarintFrom;
  }

  lemma PendingStep(buf: Bytes, start: nat, pos: nat, left: nat, value: nat, scale: nat)
    requires start <= |buf| && pos <= |buf| && Pending(buf, start, pos, left, value, scale)
    ensures pos == |buf| || left == 0 ==> VarintFrom(buf, start, MAX_VARINT).Bad?
    ensures pos < |buf| && left > 0 && buf[pos] < 128 ==>
              VarintFrom(buf, start, MAX_VARINT) == Got(value + scale * Low7(buf[pos]), pos + 1)
    ensures pos < |buf| && left > 0 && buf[pos] >= 128 ==>
              Pending(buf, start, pos + 1, left - 1, value + scale * Low7(buf[pos]), 128 * scale)
  {
    hide VarintFrom, Low7;
    UnfoldVarintFrom(buf, pos, left);
    if pos < |buf| && left > 0 && buf[pos] >= 128 {
      var rest := VarintFrom(buf, pos + 1, left - 1);
      if rest.Got? { Regroup(value, scale, Low7(buf[pos]), rest.value); }
    }
  }

  lemma UnfoldVarintFrom(buf: Bytes, pos: nat, left: nat)
    requires pos <= |buf|
    ensures VarintFrom(buf, pos, left) ==
            if pos == |buf| || left == 0 then Bad
            else if buf[pos] < 128 then Got(Low7(buf[pos]), pos + 1)
            else
              var rest := VarintFrom(buf, pos + 1, left - 1);
              if rest.Bad? then Bad else Got(Low7(buf[pos]) + 128 * rest.value, rest.pos)
  {
  }

  lemma Regroup(value: nat, scale: nat, digit: nat, rest: nat)
    ensures value + scale * (digit + 128 * rest) == (value + scale * digit) + (128 * scale) * rest
  {
  }

  /** `SdsMessage.decode`. */
  method DecodeSdsMessage(buf: Bytes) returns (m: Option<Message>)
    ensures m == Decode(buf)
  {
    var reader := new Reader(buf);
    var obj := NO_MESSAGE;
    while reader.pos < |buf|
      invariant reader.Valid() && reader.buf == buf
      invariant DecodeFrom(buf, 0, NO_MESSAGE) == DecodeFrom(buf, reader.pos, obj)
      decreases |buf| - reader.pos
    {
      var tag := reader.ReadUint32();
      if tag.None? {
        return None;
      }
      var next := reader.ReadField(tag.value, obj);
      if next.None? {
        return None;
      }
      obj := next.value;
    }
    m := Some(obj);
  }
}
