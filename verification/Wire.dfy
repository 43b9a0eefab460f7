/** The protobuf encoding of SDS messages: what the writer appends field by
    field, what the reader's cursor makes of any bytes, and the round trip. The
    primitives are those of the Protocol Buffers encoding specification, sections
    "Base 128 Varints" and "Message Structure". */
module Wire {
  import opened Basics
  import opened Messages
  import Utf8

  const TWO_32: nat := 0x1_0000_0000
  const TWO_64: nat := 0x1_0000_0000_0000_0000

  // Writing primitives.

  function Varint(n: nat): (r: Bytes)
    ensures |r| > 0
  {
    if n < 128 then [n] else [128 + n % 128] + Varint(n / 128)
  }

  function Tag(number: nat, wireType: nat): Bytes {
    Varint(number * 8 + wireType)
  }

  function Delimited(payload: Bytes): Bytes {
    Varint(|payload|) + payload
  }

  // Reading primitives: `Bad` where the reader throws.

  datatype Read<+T> = Bad | Got(value: T, pos: nat)

  /** Up to `left` bytes of base-128 digits, least significant first. */
  function VarintFrom(buf: Bytes, pos: nat, left: nat): (r: Read<nat>)
    requires pos <= |buf|
    ensures r.Got? ==> pos < r.pos <= |buf|
    decreases left
  {
    if pos == |buf| || left == 0 then Bad
    else if buf[pos] < 128 then Got(buf[pos], pos + 1)
    else
      var rest := VarintFrom(buf, pos + 1, left - 1);
      if rest.Bad? then Bad else Got(Low7(buf[pos]) + 128 * rest.value, rest.pos)
  }

  function Low7(b: byte): nat {
    b % 128
  }

  const MAX_VARINT: nat := 10

  function Uint32From(buf: Bytes, pos: nat): (r: Read<nat>)
    requires pos <= |buf|
    ensures r.Got? ==> pos < r.pos <= |buf|
  {
    var v := VarintFrom(buf, pos, MAX_VARINT);
    if v.Bad? then Bad else Got(v.value % TWO_32, v.pos)
  }

  function Uint64From(buf: Bytes, pos: nat): (r: Read<nat>)
    requires pos <= |buf|
    ensures r.Got? ==> pos < r.pos <= |buf|
  {
    var v := VarintFrom(buf, pos, MAX_VARINT);
    if v.Bad? then Bad else Got(v.value % TWO_64, v.pos)
  }

  function BytesFrom(buf: Bytes, pos: nat): (r: Read<Bytes>)
    requires pos <= |buf|
    ensures r.Got? ==> pos < r.pos <= |buf|
  {
    var n := Uint32From(buf, pos);
    if n.Bad? || n.pos + n.value > |buf| then Bad else Got(buf[n.pos..n.pos + n.value], n.pos + n.value)
  }

  function StringFrom(buf: Bytes, pos: nat): (r: Read<string>)
    requires pos <= |buf|
    ensures r.Got? ==> pos < r.pos <= |buf|
  {
    var b := BytesFrom(buf, pos);
    if b.Bad? then Bad
    else
      var s := Utf8.Decode(b.value);
      if s.None? then Bad else Got(s.value, b.pos)
  }

  /** `skipType`: past the value of a field of the given wire type. */
  function SkipFrom(buf: Bytes, pos: nat, wireType: nat): (r: Option<nat>)
    requires pos <= |buf|
    ensures r.Some? ==> pos <= r.value <= |buf|
    decreases |buf| - pos, 1
  {
    match wireType
    case 0 => (var v := VarintFrom(buf, pos, MAX_VARINT); if v.Bad? then None else Some(v.pos))
    case 1 => if pos + 8 <= |buf| then Some(pos + 8) else None
    case 2 => (var b := BytesFrom(buf, pos); if b.Bad? then None else Some(b.pos))
    case 3 => SkipGroupFrom(buf, pos)
    case 5 => if pos + 4 <= |buf| then Some(pos + 4) else None
    case _ => None
  }

  function SkipGroupFrom(buf: Bytes, pos: nat): (r: Option<nat>)
    requires pos <= |buf|
    ensures r.Some? ==> pos <= r.value <= |buf|
    decreases |buf| - pos, 0
  {
    var t := Uint32From(buf, pos);
    if t.Bad? then None
    else if t.value % 8 == 4 then Some(t.pos)
    else
      var next := SkipFrom(buf, t.pos, t.value % 8);
      if next.None? then None else SkipGroupFrom(buf, next.value)
  }

  // The decoders. A known field number decides how a value is read; the wire
  // type in its tag is not looked at.

  const NO_ENTRY := HistoryEntry("", None, None)

  /** One field of an entry, read after its tag. */
  function DecodeEntryFieldFrom(buf: Bytes, pos: nat, tag: nat, obj: HistoryEntry): (r: Read<HistoryEntry>)
    requires pos <= |buf|
    ensures r.Got? ==> pos <= r.pos <= |buf|
  {
    match tag / 8
    case 1 => (var v := StringFrom(buf, pos); if v.Bad? then Bad else Got(obj.(messageId := v.value), v.pos))
    case 2 => (var v := BytesFrom(buf, pos); if v.Bad? then Bad else Got(obj.(retrievalHint := Some(v.value)), v.pos))
    case 3 => (var v := StringFrom(buf, pos); if v.Bad? then Bad else Got(obj.(senderId := Some(v.value)), v.pos))
    case _ => (var v := SkipFrom(buf, pos, tag % 8); if v.None? then Bad else Got(obj, v.value))
  }

  function DecodeEntryFrom(buf: Bytes, pos: nat, end: nat, obj: HistoryEntry): (r: Read<HistoryEntry>)
    requires pos <= |buf|
    ensures r.Got? ==> pos <= r.pos <= |buf|
    decreases |buf| - pos
  {
    if pos >= end then Got(obj, pos)
    else
      var tag := Uint32From(buf, pos);
      if tag.Bad? then Bad
      else
        var next := DecodeEntryFieldFrom(buf, tag.pos, tag.value, obj);
        if next.Bad? then Bad else DecodeEntryFrom(buf, next.pos, end, next.value)
  }

  /** A length, then an entry that ends there. */
  function EntryFrom(buf: Bytes, pos: nat): (r: Read<HistoryEntry>)
    requires pos <= |buf|
    ensures r.Got? ==> pos < r.pos <= |buf|
  {
    var n := Uint32From(buf, pos);
    if n.Bad? then Bad else DecodeEntryFrom(buf, n.pos, n.pos + n.value, NO_ENTRY)
  }

  const NO_MESSAGE := Message("", "", "", [], None, None, None, [])

  /** One field of a message, read after its tag. */
  function DecodeFieldFrom(buf: Bytes, pos: nat, tag: nat, obj: Message): (r: Read<Message>)
    requires pos <= |buf|
    ensures r.Got? ==> pos <= r.pos <= |buf|
  {
    match tag / 8
    case 1 => (var v := StringFrom(buf, pos); if v.Bad? then Bad else Got(obj.(senderId := v.value), v.pos))
    case 2 => (var v := StringFrom(buf, pos); if v.Bad? then Bad else Got(obj.(messageId := v.value), v.pos))
    case 3 => (var v := StringFrom(buf, pos); if v.Bad? then Bad else Got(obj.(channelId := v.value), v.pos))
    case 10 => (var v := Uint64From(buf, pos);
        if v.Bad? then Bad else Got(obj.(lamportTimestamp := Some(v.value)), v.pos))
    case 11 => (var v := EntryFrom(buf, pos);
        if v.Bad? then Bad else Got(obj.(causalHistory := obj.causalHistory + [v.value]), v.pos))
    case 12 => (var v := BytesFrom(buf, pos); if v.Bad? then Bad else Got(obj.(bloomFilter := Some(v.value)), v.pos))
    case 13 => (var v := EntryFrom(buf, pos);
        if v.Bad? then Bad else Got(obj.(repairRequest := obj.repairRequest + [v.value]), v.pos))
    case 20 => (var v := BytesFrom(buf, pos); if v.Bad? then Bad else Got(obj.(content := Some(v.value)), v.pos))
    case _ => (var v := SkipFrom(buf, pos, tag % 8); if v.None? then Bad else Got(obj, v.value))
  }

  function DecodeFrom(buf: Bytes, pos: nat, obj: Message): Read<Message>
    requires pos <= |buf|
    decreases |buf| - pos
  {
    if pos == |buf| then Got(obj, pos)
    else
      var tag := Uint32From(buf, pos);
      if tag.Bad? then Bad
      else
        var next := DecodeFieldFrom(buf, tag.pos, tag.value, obj);
        if next.Bad? then Bad else DecodeFrom(buf, next.pos, next.value)
  }

  // What bytes say, field by field.

  datatype Field =
    | VarintField(number: nat, value: nat)
    | Fixed64Field(number: nat, bytes: Bytes)
    | BytesField(number: nat, payload: Bytes)
    | GroupField(number: nat, fields: seq<Field>)
    | Fixed32Field(number: nat, bytes: Bytes)

  function WireType(f: Field): (r: nat)
    ensures r < 8 && r != 4
  {
    match f
    case VarintField(_, _) => 0
    case Fixed64Field(_, _) => 1
    case BytesField(_, _) => 2
    case GroupField(_, _) => 3
    case Fixed32Field(_, _) => 5
  }

  function EncodeValue(f: Field): Bytes
    decreases f, 0
  {
    match f
    case VarintField(_, value) => Varint(value)
    case Fixed64Field(_, bytes) => bytes
    case BytesField(_, payload) => Delimited(payload)
    case GroupField(number, fields) => EncodeFields(fields) + Tag(number, 4)
    case Fixed32Field(_, bytes) => bytes
  }

  function EncodeField(f: Field): Bytes
    decreases f, 1
  {
    Tag(f.number, WireType(f)) + EncodeValue(f)
  }

  function EncodeFields(fs: seq<Field>): Bytes
    decreases fs, 0
  {
    if |fs| == 0 then [] else EncodeField(fs[0]) + EncodeFields(fs[1..])
  }

  ghost predicate FieldOk(f: Field)
    decreases f
  {
    && 1 <= f.number < 0x2000_0000
    && match f
       case VarintField(_, value) => value < TWO_64
       case Fixed64Field(_, bytes) => |bytes| == 8
       case BytesField(_, payload) => |payload| < TWO_32
       case GroupField(_, fields) => forall g :: g in fields ==> FieldOk(g)
       case Fixed32Field(_, bytes) => |bytes| == 4
  }

  /** `x` is what the buffer holds at `pos`. */
  ghost predicate At(buf: Bytes, pos: nat, x: Bytes) {
    pos + |x| <= |buf| && buf[pos..pos + |x|] == x
  }

  lemma AtConcat(buf: Bytes, pos: nat, x: Bytes, y: Bytes)
    ensures At(buf, pos, x + y) <==> At(buf, pos, x) && At(buf, pos + |x|, y)
  {
    if At(buf, pos, x + y) {
      var s := buf[pos..pos + |x + y|];
      assert s[..|x|] == x && s[|x|..] == y;
      assert buf[pos..pos + |x|] == s[..|x|];
      assert buf[pos + |x|..pos + |x| + |y|] == s[|x|..];
    }
    if At(buf, pos, x) && At(buf, pos + |x|, y) {
      assert buf[pos..pos + |x + y|] == buf[pos..pos + |x|] + buf[pos + |x|..pos + |x| + |y|];
    }
  }

  lemma AtFits(buf: Bytes, pos: nat, x: Bytes)
    requires At(buf, pos, x)
    ensures pos + |x| <= |buf|
  {
  }

  function Pow128(k: nat): nat {
    if k == 0 then 1 else 128 * Pow128(k - 1)
  }

  lemma {:induction false} VarintAt(buf: Bytes, pos: nat, n: nat, left: nat)
    requires At(buf, pos, Varint(n)) && n < Pow128(left) && left >= 1
    ensures VarintFrom(buf, pos, left) == Got(n, pos + |Varint(n)|)
    decreases left
  {
    assert buf[pos] == buf[pos..pos + |Varint(n)|][0];
    if n >= 128 {
      AtConcat(buf, pos, [128 + n % 128], Varint(n / 128));
      VarintAt(buf, pos + 1, n / 128, left - 1);
      assert buf[pos] == 128 + n % 128 && Low7(buf[pos]) == n % 128;
    }
  }

  lemma TagParts(number: nat, wireType: nat)
    requires wireType < 8
    ensures (number * 8 + wireType) / 8 == number && (number * 8 + wireType) % 8 == wireType
  {
  }

  lemma TenDigits(n: nat)
    requires n < TWO_64
    ensures n < Pow128(MAX_VARINT)
  {
    assert Pow128(10) == 0x40_0000_0000_0000_0000;
  }

  lemma Uint32At(buf: Bytes, pos: nat, n: nat)
    requires At(buf, pos, Varint(n)) && n < TWO_32
    ensures Uint32From(buf, pos) == Got(n, pos + |Varint(n)|)
  {
    TenDigits(n);
    VarintAt(buf, pos, n, MAX_VARINT);
  }

  lemma Uint64At(buf: Bytes, pos: nat, n: nat)
    requires At(buf, pos, Varint(n)) && n < TWO_64
    ensures Uint64From(buf, pos) == Got(n, pos + |Varint(n)|)
    ensures VarintFrom(buf, pos, MAX_VARINT) == Got(n, pos + |Varint(n)|)
  {
    TenDigits(n);
    VarintAt(buf, pos, n, MAX_VARINT);
  }

  lemma BytesAt(buf: Bytes, pos: nat, payload: Bytes)
    requires At(buf, pos, Delimited(payload)) && |payload| < TWO_32
    ensures BytesFrom(buf, pos) == Got(payload, pos + |Delimited(payload)|)
  {
    AtConcat(buf, pos, Varint(|payload|), payload);
    Uint32At(buf, pos, |payload|);
  }

  lemma TagAt(buf: Bytes, pos: nat, number: nat, wireType: nat)
    requires At(buf, pos, Tag(number, wireType)) && number < 0x2000_0000 && wireType < 8
    ensures Uint32From(buf, pos) == Got(number * 8 + wireType, pos + |Tag(number, wireType)|)
  {
    Uint32At(buf, pos, number * 8 + wireType);
  }

  /** A field of any wire type, groups of groups included, is skipped whole. */
  lemma {:induction false} SkipValueAt(buf: Bytes, pos: nat, f: Field)
    requires FieldOk(f) && At(buf, pos, EncodeValue(f))
    ensures SkipFrom(buf, pos, WireType(f)) == Some(pos + |EncodeValue(f)|)
    decreases f, 0
  {
    match f
    case VarintField(_, value) => Uint64At(buf, pos, value);
    case BytesField(_, payload) => BytesAt(buf, pos, payload);
    case GroupField(number, fields) => SkipGroupAt(buf, pos, fields, number);
    case _ =>
  }

  lemma UnfoldFields(fs: seq<Field>)
    requires |fs| > 0
    ensures EncodeFields(fs) == Tag(fs[0].number, WireType(fs[0])) + (EncodeValue(fs[0]) + EncodeFields(fs[1..]))
  {
    hide Tag, EncodeValue;
  }

  /** A field at the cursor: its tag, its value, and what follows. */
  lemma FieldAt(buf: Bytes, pos: nat, f: Field, rest: Bytes)
    requires FieldOk(f)
    requires At(buf, pos, Tag(f.number, WireType(f)) + (EncodeValue(f) + rest))
    ensures var next := pos + |Tag(f.number, WireType(f))|;
            && Uint32From(buf, pos) == Got(f.number * 8 + WireType(f), next)
            && At(buf, next, EncodeValue(f))
            && At(buf, next + |EncodeValue(f)|, rest)
  {
    var tag, value := Tag(f.number, WireType(f)), EncodeValue(f);
    hide Tag, EncodeValue, At, Uint32From;
    AtConcat(buf, pos, tag, value + rest);
    AtConcat(buf, pos + |tag|, value, rest);
    TagAt(buf, pos, f.number, WireType(f));
  }

  lemma {:induction false} SkipGroupAt(buf: Bytes, pos: nat, fields: seq<Field>, number: nat)
    requires forall g :: g in fields ==> FieldOk(g)
    requires number < 0x2000_0000 && At(buf, pos, EncodeFields(fields) + Tag(number, 4))
    ensures SkipGroupFrom(buf, pos) == Some(pos + |EncodeFields(fields) + Tag(number, 4)|)
    decreases fields, 1
  {
    hide *;
    var end := Tag(number, 4);
    if |fields| == 0 {
      NoFields(fields);
      GroupEnd(buf, pos, EncodeFields(fields), number);
    } else {
      var f, more := fields[0], EncodeFields(fields[1..]);
      var tag, value := Tag(f.number, WireType(f)), EncodeValue(f);
      UnfoldFields(fields);
      assert f in fields;
      Reassociate(tag, value, more, end);
      FieldAt(buf, pos, f, more + end);
      SkipValueAt(buf, pos + |tag|, f);
      AtFits(buf, pos + |tag| + |value|, more + end);
      GroupStep(buf, pos, f);
      SkipGroupAt(buf, pos + |tag| + |value|, fields[1..], number);
    }
  }

  lemma NoFields(fs: seq<Field>)
    requires |fs| == 0
    ensures EncodeFields(fs) == []
  {
  }

  lemma Reassociate(a: Bytes, b: Bytes, c: Bytes, d: Bytes)
    ensures a + (b + c) + d == a + (b + (c + d))
  {
  }

  lemma GroupEnd(buf: Bytes, pos: nat, none: Bytes, number: nat)
    requires none == [] && number < 0x2000_0000 && At(buf, pos, none + Tag(number, 4))
    ensures SkipGroupFrom(buf, pos) == Some(pos + |none + Tag(number, 4)|)
  {
    assert none + Tag(number, 4) == Tag(number, 4);
    hide At, Tag, Uint32From;
    TagAt(buf, pos, number, 4);
    TagParts(number, 4);
  }

  /** Inside a group, a field that is not its end is skipped. */
  lemma GroupStep(buf: Bytes, pos: nat, f: Field)
    requires var next := pos + |Tag(f.number, WireType(f))|;
      next <= |buf| && Uint32From(buf, pos) == Got(f.number * 8 + WireType(f), next)
    requires SkipFrom(buf, pos + |Tag(f.number, WireType(f))|, WireType(f)) ==
             Some(pos + |Tag(f.number, WireType(f))| + |EncodeValue(f)|)
    requires pos + |Tag(f.number, WireType(f))| + |EncodeValue(f)| <= |buf|
    ensures SkipGroupFrom(buf, pos) == SkipGroupFrom(buf, pos + |Tag(f.number, WireType(f))| + |EncodeValue(f)|)
  {
    hide Tag, WireType, EncodeValue, Uint32From, SkipFrom;
    TagParts(f.number, WireType(f));
  }

  // Entries.

  ghost predicate EntryFieldOk(f: Field) {
    && FieldOk(f)
    && (f.number == 1 || f.number == 3 ==> f.BytesField? && Utf8.Decode(f.payload).Some?)
    && (f.number == 2 ==> f.BytesField?)
  }

  ghost function SetEntryField(obj: HistoryEntry, f: Field): HistoryEntry
    requires EntryFieldOk(f)
  {
    if f.number == 1 then obj.(messageId := Utf8.Decode(f.payload).value)
    else if f.number == 2 then obj.(retrievalHint := Some(f.payload))
    else if f.number == 3 then obj.(senderId := Some(Utf8.Decode(f.payload).value))
    else obj
  }

  ghost function SetEntryFields(obj: HistoryEntry, fs: seq<Field>): HistoryEntry
    requires forall f :: f in fs ==> EntryFieldOk(f)
    decreases |fs|
  {
    if |fs| == 0 then obj else SetEntryFields(SetEntryField(obj, fs[0]), fs[1..])
  }

  lemma UnknownFieldFrom(buf: Bytes, pos: nat, tag: nat, obj: HistoryEntry)
    requires pos <= |buf| && tag / 8 !in {1, 2, 3}
    ensures DecodeEntryFieldFrom(buf, pos, tag, obj) ==
            (var v := SkipFrom(buf, pos, tag % 8); if v.None? then Bad else Got(obj, v.value))
  {
    hide SkipFrom;
  }

  /** Reading one entry field is setting it, and moves past it. */
  lemma EntryValueAt(buf: Bytes, pos: nat, f: Field, obj: HistoryEntry)
    requires EntryFieldOk(f) && At(buf, pos, EncodeValue(f))
    ensures pos <= |buf|
    ensures DecodeEntryFieldFrom(buf, pos, f.number * 8 + WireType(f), obj) ==
            Got(SetEntryField(obj, f), pos + |EncodeValue(f)|)
  {
    TagParts(f.number, WireType(f));
    if f.number <= 3 {
      hide At, BytesFrom, SkipFrom, Delimited, Utf8.Decode;
      AtFits(buf, pos, EncodeValue(f));
      BytesAt(buf, pos, f.payload);
    } else {
      assert FieldOk(f) && SetEntryField(obj, f) == obj;
      hide *;
      AtFits(buf, pos, EncodeValue(f));
      SkipValueAt(buf, pos, f);
      UnknownFieldFrom(buf, pos, f.number * 8 + WireType(f), obj);
    }
  }

  lemma DecodeEntryStep(buf: Bytes, pos: nat, end: nat, obj: HistoryEntry)
    requires pos <= |buf| && pos < end && Uint32From(buf, pos).Got?
    ensures var tag := Uint32From(buf, pos);
            var next := DecodeEntryFieldFrom(buf, tag.pos, tag.value, obj);
            next.Got? ==> DecodeEntryFrom(buf, pos, end, obj) == DecodeEntryFrom(buf, next.pos, end, next.value)
  {
    hide Uint32From, DecodeEntryFieldFrom;
  }

  lemma {:induction false} DecodeEntryAt(buf: Bytes, pos: nat, fs: seq<Field>, obj: HistoryEntry)
    requires (forall f :: f in fs ==> EntryFieldOk(f)) && At(buf, pos, EncodeFields(fs))
    ensures DecodeEntryFrom(buf, pos, pos + |EncodeFields(fs)|, obj) ==
            Got(SetEntryFields(obj, fs), pos + |EncodeFields(fs)|)
    decreases |fs|
  {
    hide *;
    if |fs| == 0 {
      NoFields(fs);
      AtFits(buf, pos, EncodeFields(fs));
      DecodeEntryEnd(buf, pos, fs, obj);
    } else {
      var f, rest := fs[0], EncodeFields(fs[1..]);
      var tag, value := Tag(f.number, WireType(f)), EncodeValue(f);
      var end := pos + |EncodeFields(fs)|;
      UnfoldFields(fs);
      EntryFieldIsField(f);
      UnfoldSetEntryFields(obj, fs);
      AtFits(buf, pos, EncodeFields(fs));
      FieldAt(buf, pos, f, rest);
      EntryValueAt(buf, pos + |tag|, f, obj);
      DecodeEntryStep(buf, pos, end, obj);
      DecodeEntryAt(buf, pos + |tag| + |value|, fs[1..], SetEntryField(obj, f));
    }
  }

  lemma EntryFieldIsField(f: Field)
    requires EntryFieldOk(f)
    ensures FieldOk(f)
  {
  }

  lemma UnfoldSetEntryFields(obj: HistoryEntry, fs: seq<Field>)
    requires (forall f :: f in fs ==> EntryFieldOk(f)) && |fs| > 0
    ensures SetEntryFields(obj, fs) == SetEntryFields(SetEntryField(obj, fs[0]), fs[1..])
  {
    hide EntryFieldOk, SetEntryField;
  }

  lemma DecodeEntryEnd(buf: Bytes, pos: nat, fs: seq<Field>, obj: HistoryEntry)
    requires pos <= |buf| && |fs| == 0
    ensures DecodeEntryFrom(buf, pos, pos, obj) == Got(SetEntryFields(obj, fs), pos)
  {
  }

  function EntryFields(e: HistoryEntry): seq<Field> {
    (if e.messageId != "" then [BytesField(1, Utf8.Encode(e.messageId))] else []) +
    (if e.retrievalHint.Some? then [BytesField(2, e.retrievalHint.value)] else []) +
    (if e.senderId.Some? then [BytesField(3, Utf8.Encode(e.senderId.value))] else [])
  }

  /** Lengths a 32-bit prefix can carry. */
  ghost predicate EntryFits(e: HistoryEntry) {
    && |Utf8.Encode(e.messageId)| < TWO_32
    && (e.retrievalHint.Some? ==> |e.retrievalHint.value| < TWO_32)
    && (e.senderId.Some? ==> |Utf8.Encode(e.senderId.value)| < TWO_32)
    && |EncodeFields(EntryFields(e))| < TWO_32
  }

  lemma EntryFieldsOk(e: HistoryEntry)
    requires EntryFits(e)
    ensures forall f :: f in EntryFields(e) ==> EntryFieldOk(f)
  {
    Utf8.RoundTrip(e.messageId);
    if e.senderId.Some? { Utf8.RoundTrip(e.senderId.value); }
  }

  lemma {:induction false} SetEntryFieldsConcat(obj: HistoryEntry, a: seq<Field>, b: seq<Field>)
    requires forall f :: f in a + b ==> EntryFieldOk(f)
    ensures forall f :: f in a ==> EntryFieldOk(f)
    ensures forall f :: f in b ==> EntryFieldOk(f)
    ensures SetEntryFields(obj, a + b) == SetEntryFields(SetEntryFields(obj, a), b)
    decreases |a|
  {
    forall f | f in a || f in b ensures EntryFieldOk(f) { assert f in a + b; }
    if |a| == 0 {
      assert a + b == b;
    } else {
      assert (a + b)[1..] == a[1..] + b;
      SetEntryFieldsConcat(SetEntryField(obj, a[0]), a[1..], b);
    }
  }

  lemma SetOneEntryField(obj: HistoryEntry, f: Field)
    requires EntryFieldOk(f)
    ensures SetEntryFields(obj, [f]) == SetEntryField(obj, f)
  {
    assert [f][1..] == [];
  }

  /** The fields of an entry rebuild it. */
  lemma EntryFieldsRebuild(e: HistoryEntry)
    requires EntryFits(e)
    ensures (forall f :: f in EntryFields(e) ==> EntryFieldOk(f)) && SetEntryFields(NO_ENTRY, EntryFields(e)) == e
  {
    EntryFieldsOk(e);
    Utf8.RoundTrip(e.messageId);
    var a := if e.messageId != "" then [BytesField(1, Utf8.Encode(e.messageId))] else [];
    var b := if e.retrievalHint.Some? then [BytesField(2, e.retrievalHint.value)] else [];
    var c := if e.senderId.Some? then [BytesField(3, Utf8.Encode(e.senderId.value))] else [];
    SetEntryFieldsConcat(NO_ENTRY, a + b, c);
    SetEntryFieldsConcat(NO_ENTRY, a, b);
    if e.messageId != "" { SetOneEntryField(NO_ENTRY, a[0]); }
    if e.retrievalHint.Some? { SetOneEntryField(SetEntryFields(NO_ENTRY, a), b[0]); }
    if e.senderId.Some? {
      Utf8.RoundTrip(e.senderId.value);
      SetOneEntryField(SetEntryFields(NO_ENTRY, a + b), c[0]);
    }
  }

  // Messages.

  /** A field of a message: a nested entry, or anything else. */
  datatype MessageField = Plain(field: Field) | Nested(number: nat, entry: seq<Field>)

  function EncodeMessageField(mf: MessageField): Bytes {
    match mf
    case Plain(f) => EncodeField(f)
    case Nested(number, entry) => Tag(number, 2) + Delimited(EncodeFields(entry))
  }

  function EncodeMessageFields(fs: seq<MessageField>): Bytes {
    if |fs| == 0 then [] else EncodeMessageField(fs[0]) + EncodeMessageFields(fs[1..])
  }

  predicate IsKnown(number: nat) {
    1 <= number <= 3 || 10 <= number <= 13 || number == 20
  }

  ghost predicate MessageFieldOk(mf: MessageField) {
    match mf
    case Plain(f) =>
      && FieldOk(f)
      && (1 <= f.number <= 3 ==> f.BytesField? && Utf8.Decode(f.payload).Some?)
      && (f.number == 10 ==> f.VarintField?)
      && (f.number == 12 || f.number == 20 ==> f.BytesField?)
      && f.number != 11 && f.number != 13
    case Nested(number, entry) =>
      && (number == 11 || number == 13)
      && (forall f :: f in entry ==> EntryFieldOk(f)) && |EncodeFields(entry)| < TWO_32
  }

  ghost function SetField(obj: Message, mf: MessageField): Message
    requires MessageFieldOk(mf)
  {
    match mf
    case Plain(f) =>
      if f.number == 1 then obj.(senderId := Utf8.Decode(f.payload).value)
      else if f.number == 2 then obj.(messageId := Utf8.Decode(f.payload).value)
      else if f.number == 3 then obj.(channelId := Utf8.Decode(f.payload).value)
      else if f.number == 10 then obj.(lamportTimestamp := Some(f.value))
      else if f.number == 12 then obj.(bloomFilter := Some(f.payload))
      else if f.number == 20 then obj.(content := Some(f.payload))
      else obj
    case Nested(number, entry) =>
      if number == 11 then obj.(causalHistory := obj.causalHistory + [SetEntryFields(NO_ENTRY, entry)])
      else obj.(repairRequest := obj.repairRequest + [SetEntryFields(NO_ENTRY, entry)])
  }

  ghost predicate FieldsOk(fs: seq<MessageField>) {
    forall mf :: mf in fs ==> MessageFieldOk(mf)
  }

  ghost function SetFields(obj: Message, fs: seq<MessageField>): Message
    requires FieldsOk(fs)
    decreases |fs|
  {
    if |fs| == 0 then obj else SetFields(SetField(obj, fs[0]), fs[1..])
  }

  lemma EntryAt(buf: Bytes, pos: nat, entry: seq<Field>)
    requires (forall f :: f in entry ==> EntryFieldOk(f)) && |EncodeFields(entry)| < TWO_32
    requires At(buf, pos, Delimited(EncodeFields(entry)))
    ensures EntryFrom(buf, pos) == Got(SetEntryFields(NO_ENTRY, entry), pos + |Delimited(EncodeFields(entry))|)
  {
    var enc := EncodeFields(entry);
    hide EncodeFields, Varint, At, Uint32From, DecodeEntryFrom, SetEntryFields, EntryFieldOk;
    AtConcat(buf, pos, Varint(|enc|), enc);
    Uint32At(buf, pos, |enc|);
    DecodeEntryAt(buf, pos + |Varint(|enc|)|, entry, NO_ENTRY);
  }

  function FieldTag(mf: MessageField): nat {
    match mf
    case Plain(f) => f.number * 8 + WireType(f)
    case Nested(number, _) => number * 8 + 2
  }

  function FieldBody(mf: MessageField): Bytes {
    match mf
    case Plain(f) => EncodeValue(f)
    case Nested(_, entry) => Delimited(EncodeFields(entry))
  }

  lemma UnknownMessageFieldFrom(buf: Bytes, pos: nat, tag: nat, obj: Message)
    requires pos <= |buf| && !IsKnown(tag / 8)
    ensures DecodeFieldFrom(buf, pos, tag, obj) ==
            (var v := SkipFrom(buf, pos, tag % 8); if v.None? then Bad else Got(obj, v.value))
  {
    hide SkipFrom;
  }

  lemma KnownFieldAt(buf: Bytes, pos: nat, f: Field, obj: Message)
    requires MessageFieldOk(Plain(f)) && IsKnown(f.number) && At(buf, pos, EncodeValue(f))
    ensures pos <= |buf|
    ensures DecodeFieldFrom(buf, pos, f.number * 8 + WireType(f), obj) ==
            Got(SetField(obj, Plain(f)), pos + |EncodeValue(f)|)
  {
    hide At, BytesFrom, Uint64From, VarintFrom, SkipFrom, EntryFrom, Delimited, Varint, Utf8.Decode;
    TagParts(f.number, WireType(f));
    AtFits(buf, pos, EncodeValue(f));
    if f.number == 10 {
      Uint64At(buf, pos, f.value);
    } else {
      BytesAt(buf, pos, f.payload);
    }
  }

  lemma UnknownFieldAt(buf: Bytes, pos: nat, f: Field, obj: Message)
    requires MessageFieldOk(Plain(f)) && !IsKnown(f.number) && At(buf, pos, EncodeValue(f))
    ensures pos <= |buf|
    ensures DecodeFieldFrom(buf, pos, f.number * 8 + WireType(f), obj) ==
            Got(SetField(obj, Plain(f)), pos + |EncodeValue(f)|)
  {
    hide At, SkipFrom, DecodeFieldFrom, EncodeValue;
    TagParts(f.number, WireType(f));
    AtFits(buf, pos, EncodeValue(f));
    SkipValueAt(buf, pos, f);
    UnknownMessageFieldFrom(buf, pos, f.number * 8 + WireType(f), obj);
  }

  lemma NestedFieldAt(buf: Bytes, pos: nat, number: nat, entry: seq<Field>, obj: Message)
    requires MessageFieldOk(Nested(number, entry)) && At(buf, pos, Delimited(EncodeFields(entry)))
    ensures pos <= |buf|
    ensures DecodeFieldFrom(buf, pos, number * 8 + 2, obj) ==
            Got(SetField(obj, Nested(number, entry)), pos + |Delimited(EncodeFields(entry))|)
  {
    hide At, EntryFrom, Delimited, EncodeFields, EntryFieldOk, SetEntryFields;
    AtFits(buf, pos, Delimited(EncodeFields(entry)));
    TagParts(number, 2);
    EntryAt(buf, pos, entry);
  }

  /** Reading one field is setting it, and moves past it. */
  lemma DecodeFieldAt(buf: Bytes, pos: nat, mf: MessageField, obj: Message)
    requires MessageFieldOk(mf) && At(buf, pos, FieldBody(mf))
    ensures pos <= |buf|
    ensures DecodeFieldFrom(buf, pos, FieldTag(mf), obj) == Got(SetField(obj, mf), pos + |FieldBody(mf)|)
  {
    hide At, DecodeFieldFrom, EncodeValue, Delimited, MessageFieldOk, SetField, WireType;
    match mf
    case Nested(number, entry) => NestedFieldAt(buf, pos, number, entry, obj);
    case Plain(f) =>
      if IsKnown(f.number) {
        KnownFieldAt(buf, pos, f, obj);
      } else {
        UnknownFieldAt(buf, pos, f, obj);
      }
  }

  lemma FieldTagSmall(mf: MessageField)
    requires MessageFieldOk(mf)
    ensures FieldTag(mf) < TWO_32
  {
  }

  lemma UnfoldMessageFields(fs: seq<MessageField>)
    requires |fs| > 0
    ensures EncodeMessageFields(fs) == Varint(FieldTag(fs[0])) + (FieldBody(fs[0]) + EncodeMessageFields(fs[1..]))
  {
    hide Varint, EncodeValue, Delimited;
  }

  lemma DecodeStep(buf: Bytes, pos: nat, obj: Message)
    requires pos < |buf| && Uint32From(buf, pos).Got?
    ensures var tag := Uint32From(buf, pos);
            var next := DecodeFieldFrom(buf, tag.pos, tag.value, obj);
            next.Got? ==> DecodeFrom(buf, pos, obj) == DecodeFrom(buf, next.pos, next.value)
  {
    hide Uint32From, DecodeFieldFrom;
  }

  lemma MessageFieldAt(buf: Bytes, pos: nat, mf: MessageField, rest: Bytes, obj: Message)
    requires MessageFieldOk(mf) && At(buf, pos, Varint(FieldTag(mf)) + (FieldBody(mf) + rest))
    ensures var next := pos + |Varint(FieldTag(mf))| + |FieldBody(mf)|;
            && pos < next <= |buf| && At(buf, next, rest)
            && DecodeFrom(buf, pos, obj) == DecodeFrom(buf, next, SetField(obj, mf))
  {
    hide *;
    var tag, body := Varint(FieldTag(mf)), FieldBody(mf);
    FieldTagSmall(mf);
    AtFits(buf, pos, tag + (body + rest));
    AtConcat(buf, pos, tag, body + rest);
    AtConcat(buf, pos + |tag|, body, rest);
    Uint32At(buf, pos, FieldTag(mf));
    DecodeFieldAt(buf, pos + |tag|, mf, obj);
    DecodeStep(buf, pos, obj);
  }

  lemma {:induction false} DecodeAt(buf: Bytes, pos: nat, fs: seq<MessageField>, obj: Message)
    requires FieldsOk(fs) && pos + |EncodeMessageFields(fs)| == |buf| && At(buf, pos, EncodeMessageFields(fs))
    ensures DecodeFrom(buf, pos, obj) == Got(SetFields(obj, fs), |buf|)
    decreases |fs|
  {
    hide *;
    if |fs| == 0 {
      DecodeEnd(buf, pos, fs, obj);
    } else {
      var mf, rest := fs[0], EncodeMessageFields(fs[1..]);
      UnfoldSetFields(obj, fs);
      UnfoldMessageFields(fs);
      MessageFieldAt(buf, pos, mf, rest, obj);
      DecodeAt(buf, pos + |Varint(FieldTag(mf))| + |FieldBody(mf)|, fs[1..], SetField(obj, mf));
    }
  }

  lemma UnfoldSetFields(obj: Message, fs: seq<MessageField>)
    requires FieldsOk(fs) && |fs| > 0
    ensures MessageFieldOk(fs[0]) && FieldsOk(fs[1..])
    ensures SetFields(obj, fs) == SetFields(SetField(obj, fs[0]), fs[1..])
  {
    hide MessageFieldOk, SetField;
  }

  lemma DecodeEnd(buf: Bytes, pos: nat, fs: seq<MessageField>, obj: Message)
    requires |fs| == 0 && FieldsOk(fs) && pos + |EncodeMessageFields(fs)| == |buf|
    ensures DecodeFrom(buf, pos, obj) == Got(SetFields(obj, fs), |buf|)
  {
  }

  function Decode(buf: Bytes): Option<Message> {
    var r := DecodeFrom(buf, 0, NO_MESSAGE);
    if r.Bad? then None else Some(r.value)
  }

  /** Decoding well-formed bytes applies their fields in order. */
  lemma DecodeAppliesFields(fs: seq<MessageField>)
    requires FieldsOk(fs)
    ensures Decode(EncodeMessageFields(fs)) == Some(SetFields(NO_MESSAGE, fs))
  {
    DecodeAt(EncodeMessageFields(fs), 0, fs, NO_MESSAGE);
  }

  ghost predicate Unknown(mf: MessageField) {
    mf.Plain? && !IsKnown(mf.field.number)
  }

  ghost function Known(fs: seq<MessageField>): seq<MessageField> {
    if |fs| == 0 then [] else (if Unknown(fs[0]) then [] else [fs[0]]) + Known(fs[1..])
  }

  lemma {:induction false} SetFieldsIgnoresUnknown(obj: Message, fs: seq<MessageField>)
    requires FieldsOk(fs)
    ensures FieldsOk(Known(fs)) && SetFields(obj, fs) == SetFields(obj, Known(fs))
    decreases |fs|
  {
    if |fs| > 0 {
      var mf, more := fs[0], Known(fs[1..]);
      assert mf in fs && FieldsOk(fs[1..]);
      SetFieldsIgnoresUnknown(SetField(obj, mf), fs[1..]);
      if Unknown(mf) {
        assert SetField(obj, mf) == obj;
        assert Known(fs) == more;
      } else {
        assert Known(fs) == [mf] + more && Known(fs)[1..] == more;
      }
    }
  }

  /** Fields with numbers this version does not know, of any wire type and anywhere
      in the message, change nothing. */
  lemma UnknownFieldsSkipped(fs: seq<MessageField>)
    requires FieldsOk(fs)
    ensures Decode(EncodeMessageFields(fs)) == Decode(EncodeMessageFields(Known(fs)))
  {
    SetFieldsIgnoresUnknown(NO_MESSAGE, fs);
    DecodeAppliesFields(fs);
    DecodeAppliesFields(Known(fs));
  }

  // The encoder.

  function TextField(number: nat, s: string): seq<MessageField> {
    if s != "" then [Plain(BytesField(number, Utf8.Encode(s)))] else []
  }

  function OptionalBytes(number: nat, b: Option<Bytes>): seq<MessageField> {
    if b.Some? then [Plain(BytesField(number, b.value))] else []
  }

  function EntriesFields(number: nat, es: seq<HistoryEntry>): seq<MessageField> {
    if |es| == 0 then [] else EntriesFields(number, es[..|es| - 1]) + [Nested(number, EntryFields(es[|es| - 1]))]
  }

  function StampField(t: Option<nat>): seq<MessageField> {
    if t.Some? then [Plain(VarintField(10, t.value % TWO_64))] else []
  }

  /** The fields of a message in the order they are written. */
  function MessageFields(m: Message): seq<MessageField> {
    TextField(1, m.senderId) + (TextField(2, m.messageId) +
    (TextField(3, m.channelId) + (StampField(m.lamportTimestamp) +
    (EntriesFields(11, m.causalHistory) + (OptionalBytes(12, m.bloomFilter) +
    (EntriesFields(13, m.repairRequest) + OptionalBytes(20, m.content)))))))
  }

  function Encode(m: Message): Bytes {
    EncodeMessageFields(MessageFields(m))
  }

  ghost predicate Fits(m: Message) {
    && |Utf8.Encode(m.senderId)| < TWO_32 && |Utf8.Encode(m.messageId)| < TWO_32 && |Utf8.Encode(m.channelId)| < TWO_32
    && (m.bloomFilter.Some? ==> |m.bloomFilter.value| < TWO_32)
    && (m.content.Some? ==> |m.content.value| < TWO_32)
    && (forall e :: e in m.causalHistory ==> EntryFits(e))
    && (forall e :: e in m.repairRequest ==> EntryFits(e))
  }

  lemma {:induction false} SetFieldsConcat(obj: Message, a: seq<MessageField>, b: seq<MessageField>)
    requires FieldsOk(a) && FieldsOk(b)
    ensures FieldsOk(a + b) && SetFields(obj, a + b) == SetFields(SetFields(obj, a), b)
    decreases |a|
  {
    if |a| == 0 {
      assert a + b == b;
    } else {
      assert (a + b)[1..] == a[1..] + b;
      assert FieldsOk(a[1..]);
      SetFieldsConcat(SetField(obj, a[0]), a[1..], b);
    }
  }

  lemma SetOneField(obj: Message, mf: MessageField)
    requires MessageFieldOk(mf)
    ensures FieldsOk([mf]) && SetFields(obj, [mf]) == SetField(obj, mf)
  {
    assert [mf][1..] == [];
  }

  lemma SetText(obj: Message, number: nat, s: string)
    requires 1 <= number <= 3 && |Utf8.Encode(s)| < TWO_32
    ensures FieldsOk(TextField(number, s))
    ensures number == 1 && obj.senderId == "" ==> SetFields(obj, TextField(number, s)) == obj.(senderId := s)
    ensures number == 2 && obj.messageId == "" ==> SetFields(obj, TextField(number, s)) == obj.(messageId := s)
    ensures number == 3 && obj.channelId == "" ==> SetFields(obj, TextField(number, s)) == obj.(channelId := s)
  {
    Utf8.RoundTrip(s);
    if s != "" { SetOneField(obj, TextField(number, s)[0]); }
  }

  lemma SetBytes(obj: Message, number: nat, b: Option<Bytes>)
    requires number == 12 || number == 20
    requires b.Some? ==> |b.value| < TWO_32
    ensures FieldsOk(OptionalBytes(number, b))
    ensures number == 12 && obj.bloomFilter.None? ==> SetFields(obj, OptionalBytes(number, b)) == obj.(bloomFilter := b)
    ensures number == 20 && obj.content.None? ==> SetFields(obj, OptionalBytes(number, b)) == obj.(content := b)
  {
    if b.Some? { SetOneField(obj, OptionalBytes(number, b)[0]); }
  }

  lemma SetStamp(obj: Message, t: Option<nat>)
    ensures FieldsOk(StampField(t))
    ensures obj.lamportTimestamp.None? ==>
              SetFields(obj, StampField(t)) ==
              obj.(lamportTimestamp := if t.Some? then Some(t.value % TWO_64) else None)
  {
    if t.Some? { SetOneField(obj, StampField(t)[0]); }
  }

  lemma {:induction false} SetEntries(obj: Message, number: nat, es: seq<HistoryEntry>)
    requires (number == 11 || number == 13) && forall e :: e in es ==> EntryFits(e)
    ensures FieldsOk(EntriesFields(number, es))
    ensures SetFields(obj, EntriesFields(number, es)) ==
            if number == 11 then obj.(causalHistory := obj.causalHistory + es)
            else obj.(repairRequest := obj.repairRequest + es)
  {
    if |es| > 0 {
      var p, l := es[..|es| - 1], es[|es| - 1];
      assert es == p + [l];
      SetEntries(obj, number, p);
      EntryFieldsRebuild(l);
      var mf := Nested(number, EntryFields(l));
      SetOneField(SetFields(obj, EntriesFields(number, p)), mf);
      SetFieldsConcat(obj, EntriesFields(number, p), [mf]);
    } else {
      assert obj.causalHistory + es == obj.causalHistory && obj.repairRequest + es == obj.repairRequest;
    }
  }

  /** What a message loses on the wire: the timestamp beyond its low 64 bits. */
  function Truncated(m: Message): Message {
    m.(lamportTimestamp := if m.lamportTimestamp.Some? then Some(m.lamportTimestamp.value % TWO_64) else None)
  }

  lemma FieldsRebuild(m: Message)
    requires Fits(m)
    ensures FieldsOk(MessageFields(m)) && SetFields(NO_MESSAGE, MessageFields(m)) == Truncated(m)
  {
    hide FieldsOk, SetFields, TextField, OptionalBytes, StampField, EntriesFields, EntryFits, Utf8.Encode;
    var m0 := NO_MESSAGE;
    var m1 := m0.(senderId := m.senderId);
    var m2 := m1.(messageId := m.messageId);
    var m3 := m2.(channelId := m.channelId);
    var m4 := m3.(lamportTimestamp := Truncated(m).lamportTimestamp);
    var m5 := m4.(causalHistory := m4.causalHistory + m.causalHistory);
    var m6 := m5.(bloomFilter := m.bloomFilter);
    var m7 := m6.(repairRequest := m6.repairRequest + m.repairRequest);
    SetText(m0, 1, m.senderId);
    SetText(m1, 2, m.messageId);
    SetText(m2, 3, m.channelId);
    SetStamp(m3, m.lamportTimestamp);
    SetEntries(m4, 11, m.causalHistory);
    SetBytes(m5, 12, m.bloomFilter);
    SetEntries(m6, 13, m.repairRequest);
    SetBytes(m7, 20, m.content);
    var f7 := EntriesFields(13, m.repairRequest) + OptionalBytes(20, m.content);
    var f6 := OptionalBytes(12, m.bloomFilter) + f7;
    var f5 := EntriesFields(11, m.causalHistory) + f6;
    var f4 := StampField(m.lamportTimestamp) + f5;
    var f3 := TextField(3, m.channelId) + f4;
    var f2 := TextField(2, m.messageId) + f3;
    SetFieldsConcat(m6, EntriesFields(13, m.repairRequest), OptionalBytes(20, m.content));
    SetFieldsConcat(m5, OptionalBytes(12, m.bloomFilter), f7);
    SetFieldsConcat(m4, EntriesFields(11, m.causalHistory), f6);
    SetFieldsConcat(m3, StampField(m.lamportTimestamp), f5);
    SetFieldsConcat(m2, TextField(3, m.channelId), f4);
    SetFieldsConcat(m1, TextField(2, m.messageId), f3);
    SetFieldsConcat(m0, TextField(1, m.senderId), f2);
  }

  /** Round trip: every message, with any number of entries, decodes to itself
      exactly when its timestamp is below 2^64, and otherwise to itself with the
      timestamp reduced. */
  lemma RoundTrip(m: Message)
    requires Fits(m)
    ensures Decode(Encode(m)) == Some(Truncated(m))
    ensures Decode(Encode(m)) == Some(m) <==> (m.lamportTimestamp.Some? ==> m.lamportTimestamp.value < TWO_64)
  {
    hide *;
    FieldsRebuild(m);
    DecodeAppliesFields(MessageFields(m));
    EncodeIs(m);
    TruncationLoss(m);
  }

  lemma EncodeIs(m: Message)
    ensures Encode(m) == EncodeMessageFields(MessageFields(m))
  {
    hide EncodeMessageFields, MessageFields;
  }

  lemma TruncationLoss(m: Message)
    ensures Truncated(m) == m <==> (m.lamportTimestamp.Some? ==> m.lamportTimestamp.value < TWO_64)
  {
  }

  // `Message.decode`: the class of what was decoded.

  /** `None` for a message of no class, or bytes that do not decode; a sync message
      loses an empty content. */
  function Classified(m: Message): Option<Message> {
    if IsContent(m) then Some(m)
    else if IsEphemeral(m) then Some(m.(lamportTimestamp := None))
    else if IsSync(m) then Some(m.(content := None))
    else None
  }

  function DecodeMessage(buf: Bytes): Option<Message> {
    var r := Decode(buf);
    if r.None? then None else Classified(r.value)
  }

  /** A message of one of the three classes comes back in the same class with the
      same fields; one of none does not come back. */
  lemma ClassRoundTrip(m: Message)
    requires Fits(m) && (m.lamportTimestamp.Some? ==> m.lamportTimestamp.value < TWO_64)
    ensures IsContent(m) || IsEphemeral(m) ==> DecodeMessage(Encode(m)) == Some(m)
    ensures IsSync(m) ==> DecodeMessage(Encode(m)) == Some(m.(content := None)) && IsSync(m.(content := None))
    ensures DecodeMessage(Encode(m)).Some? <==> IsContent(m) || IsEphemeral(m) || IsSync(m)
  {
    RoundTrip(m);
  }
}
