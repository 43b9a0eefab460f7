/** The string key that orders the log: a zero-padded decimal timestamp, an
    underscore, the message id. */
module OrderKey {
  import opened Basics
  import opened Messages

  // Comparison of strings, character by character.
  predicate StrLt(a: string, b: string) {
    |b| > 0 && (|a| == 0 || a[0] < b[0] || (a[0] == b[0] && StrLt(a[1..], b[1..])))
  }

  predicate StrLeq(a: string, b: string) {
    a == b || StrLt(a, b)
  }

  lemma {:induction false} StrLtTotal(a: string, b: string)
    ensures StrLt(a, b) || a == b || StrLt(b, a)
  {
    if |a| > 0 && |b| > 0 && a[0] == b[0] {
      StrLtTotal(a[1..], b[1..]);
      assert a == [a[0]] + a[1..] && b == [b[0]] + b[1..];
    }
  }

  lemma {:induction false} StrLtIrreflexive(a: string)
    ensures !StrLt(a, a)
  {
    if |a| > 0 {
      StrLtIrreflexive(a[1..]);
    }
  }

  lemma {:induction false} StrLtTransitive(a: string, b: string, c: string)
    requires StrLt(a, b) && StrLt(b, c)
    ensures StrLt(a, c)
  {
    if |a| > 0 && a[0] == b[0] && b[0] == c[0] {
      StrLtTransitive(a[1..], b[1..], c[1..]);
    }
  }

  /** Heads of equal length decide first, tails break the tie. */
  lemma {:induction false} StrLtConcat(x: string, u: string, y: string, v: string)
    requires |x| == |y|
    ensures StrLt(x + u, y + v) <==> StrLt(x, y) || (x == y && StrLt(u, v))
  {
    if |x| == 0 {
      assert x + u == u && y + v == v;
    } else {
      StrLtConcat(x[1..], u, y[1..], v);
      assert (x + u)[1..] == x[1..] + u && (y + v)[1..] == y[1..] + v;
      assert x == [x[0]] + x[1..] && y == [y[0]] + y[1..];
    }
  }

  function DigitChar(d: nat): char
    requires d < 10
  {
    '0' + d as char
  }

  /** `BigInt.prototype.toString` in base ten. */
  function Decimal(n: nat): string {
    if n < 10 then [DigitChar(n)] else Decimal(n / 10) + [DigitChar(n % 10)]
  }

  /** `padStart(width, "0")`. */
  function PadStart(s: string, width: nat): string
    decreases width - |s|
  {
    if |s| >= width then s else PadStart(['0'] + s, width)
  }

  const KEY_WIDTH: nat := 16

  /** `valueOf`. Only content messages have one; the key of any other message is
      never asked for. */
  function Key(m: Message): string {
    Stamp(m) + "_" + m.messageId
  }

  function Stamp(m: Message): string {
    if m.lamportTimestamp.Some? then PadStart(Decimal(m.lamportTimestamp.value), KEY_WIDTH) else ""
  }

  // Digits.

  function Pow10(k: nat): (r: nat)
    ensures r >= 1
  {
    if k == 0 then 1 else 10 * Pow10(k - 1)
  }

  /** Exactly `w` digits, leading zeros included. */
  function Digits(n: nat, w: nat): (r: string)
    ensures |r| == w
  {
    if w == 0 then "" else Digits(n / 10, w - 1) + [DigitChar(n % 10)]
  }

  function Zeros(k: nat): (r: string)
    ensures |r| == k
    ensures forall i :: 0 <= i < k ==> r[i] == '0'
  {
    seq(k, _ => '0')
  }

  lemma {:induction false} PadStartZeros(s: string, width: nat)
    ensures PadStart(s, width) == Zeros(if |s| >= width then 0 else width - |s|) + s
    decreases width - |s|
  {
    if |s| < width {
      PadStartZeros(['0'] + s, width);
      var k := width - |s|;
      assert Zeros(k - 1) + (['0'] + s) == Zeros(k) + s;
    }
  }

  lemma {:induction false} DigitsOfZero(w: nat)
    ensures Digits(0, w) == Zeros(w)
  {
    if w > 0 {
      DigitsOfZero(w - 1);
    }
  }

  lemma {:induction false} DecimalDigits(n: nat, w: nat)
    requires n < Pow10(w) && w >= 1
    ensures |Decimal(n)| <= w
    ensures Zeros(w - |Decimal(n)|) + Decimal(n) == Digits(n, w)
  {
    if n < 10 {
      DigitsOfZero(w - 1);
      assert n / 10 == 0;
    } else {
      DecimalDigits(n / 10, w - 1);
      var k := w - |Decimal(n)|;
      assert Zeros(k) + Decimal(n) == (Zeros(k) + Decimal(n / 10)) + [DigitChar(n % 10)];
    }
  }

  lemma {:induction false} DigitsOrder(a: nat, b: nat, w: nat)
    requires a < Pow10(w) && b < Pow10(w)
    ensures StrLt(Digits(a, w), Digits(b, w)) <==> a < b
    ensures Digits(a, w) == Digits(b, w) <==> a == b
  {
    if w > 0 {
      DigitsOrder(a / 10, b / 10, w - 1);
      var x, y := Digits(a / 10, w - 1), Digits(b / 10, w - 1);
      var u, v := [DigitChar(a % 10)], [DigitChar(b % 10)];
      StrLtConcat(x, u, y, v);
      assert StrLt(u, v) <==> a % 10 < b % 10;
      assert u == v <==> a % 10 == b % 10 by { assert u[0] == v[0] <==> a % 10 == b % 10; }
      assert (x + u)[..w - 1] == x && (y + v)[..w - 1] == y;
      assert (x + u)[w - 1..] == u && (y + v)[w - 1..] == v;
    }
  }

  /** Keys have sixteen digits. */
  lemma KeyBound()
    ensures Pow10(KEY_WIDTH) == 10_000_000_000_000_000
  {
    assert Pow10(4) == 10_000;
    assert Pow10(8) == 100_000_000;
    assert Pow10(12) == 1_000_000_000_000;
  }

  lemma KeyLayout(m: Message)
    requires m.lamportTimestamp.Some? && m.lamportTimestamp.value < Pow10(KEY_WIDTH)
    ensures Key(m) == Digits(m.lamportTimestamp.value, KEY_WIDTH) + ("_" + m.messageId)
  {
    hide Decimal, Digits, PadStart, Zeros, Pow10;
    var t := m.lamportTimestamp.value;
    PadStartZeros(Decimal(t), KEY_WIDTH);
    DecimalDigits(t, KEY_WIDTH);
  }

  /** The order the log is meant to have: timestamp first, id to break ties. */
  predicate ChronologicallyBefore(a: Message, b: Message)
    requires a.lamportTimestamp.Some? && b.lamportTimestamp.Some?
  {
    a.lamportTimestamp.value < b.lamportTimestamp.value
    || (a.lamportTimestamp == b.lamportTimestamp && StrLt(a.messageId, b.messageId))
  }

  /** Below ten to the sixteenth, comparing keys as strings is comparing
      (timestamp, id) pairs. */
  lemma KeyFaithful(a: Message, b: Message)
    requires a.lamportTimestamp.Some? && b.lamportTimestamp.Some?
    requires a.lamportTimestamp.value < 10_000_000_000_000_000 && b.lamportTimestamp.value < 10_000_000_000_000_000
    ensures StrLt(Key(a), Key(b)) <==> ChronologicallyBefore(a, b)
  {
    KeyBound();
    KeyLayout(a);
    KeyLayout(b);
    DigitsOrder(a.lamportTimestamp.value, b.lamportTimestamp.value, KEY_WIDTH);
    StrLtConcat(Digits(a.lamportTimestamp.value, KEY_WIDTH), "_" + a.messageId,
                Digits(b.lamportTimestamp.value, KEY_WIDTH), "_" + b.messageId);
    StrLtConcat("_", a.messageId, "_", b.messageId);
    StrLtIrreflexive("_");
  }

  /** A timestamp of ten to the sixteenth sorts before its predecessor, whatever
      the ids: the bound cannot be raised by one. */
  lemma KeyBoundTight(a: Message, b: Message)
    requires a.lamportTimestamp == Some(9_999_999_999_999_999) && b.lamportTimestamp == Some(10_000_000_000_000_000)
    ensures ChronologicallyBefore(a, b) && StrLt(Key(b), Key(a))
  {
    KeyBound();
    Nines(KEY_WIDTH);
    OneThenZeros(KEY_WIDTH);
    KeyLayout(a);
    PadStartZeros(Decimal(Pow10(KEY_WIDTH)), KEY_WIDTH);
    assert Key(a)[0] == '9';
    assert Key(b)[0] == '1';
  }

  lemma {:induction false} Nines(w: nat)
    requires w >= 1
    ensures Digits(Pow10(w) - 1, w)[0] == '9'
  {
    if w == 1 {
      assert Pow10(1) == 10 * Pow10(0);
    } else {
      Nines(w - 1);
      assert (Pow10(w) - 1) / 10 == Pow10(w - 1) - 1;
    }
  }

  lemma {:induction false} OneThenZeros(w: nat)
    ensures |Decimal(Pow10(w))| == w + 1 && Decimal(Pow10(w))[0] == '1'
  {
    if w > 0 {
      OneThenZeros(w - 1);
      assert Pow10(w) / 10 == Pow10(w - 1);
    }
  }

  // A key tells messages apart by id, at any timestamp: the digits before the
  // first underscore cannot contain one.

  lemma {:induction false} DecimalNoUnderscore(n: nat)
    ensures '_' !in Decimal(n)
  {
    if n >= 10 {
      DecimalNoUnderscore(n / 10);
    }
  }

  lemma SplitAtUnderscore(p: string, x: string, q: string, y: string)
    requires '_' !in p && '_' !in q && p + "_" + x == q + "_" + y
    ensures p == q && x == y
  {
    var k := p + "_" + x;
    assert k[|p|] == '_' && k[|q|] == '_';
    assert |p| == |q|;
    assert k[..|p|] == p && k[..|q|] == q;
    assert k[|p| + 1..] == x && k[|q| + 1..] == y;
  }

  lemma KeyDeterminesId(a: Message, b: Message)
    requires Key(a) == Key(b)
    ensures a.messageId == b.messageId
  {
    StampNoUnderscore(a);
    StampNoUnderscore(b);
    SplitAtUnderscore(Stamp(a), a.messageId, Stamp(b), b.messageId);
  }

  lemma StampNoUnderscore(m: Message)
    ensures '_' !in Stamp(m)
  {
    if m.lamportTimestamp.Some? {
      DecimalNoUnderscore(m.lamportTimestamp.value);
      PadStartZeros(Decimal(m.lamportTimestamp.value), KEY_WIDTH);
    }
  }
}
