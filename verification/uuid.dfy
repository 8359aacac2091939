/** Random identifier for events without a UID (`uuidv4`, app.js:163-174):
    sixteen random bytes, stamped with the version-4 / variant-1 bits of
    section 4.4 of RFC 4122, written as lower-case hex into the template
    `xxxx-xx-xx-xx-xxxxxx`, one byte per `x`. The random source is a
    parameter. */
module Uuid {
  import opened Wrappers
  import Arith

  const Template: string := "xxxx-xx-xx-xx-xxxxxx"

  /** An element of a `Uint8Array`. */
  type Byte = x: nat | x < 256

  /** JavaScript `&` on operands below 2^31 (here, bytes), bit by bit; for
      such operands the 32-bit conversion JavaScript applies first is the
      identity. */
  function BitAnd(a: nat, b: nat): (r: nat)
    ensures r <= a && r <= b
    decreases a
  {
    if a == 0 || b == 0 then 0
    else 2 * BitAnd(a / 2, b / 2) + (if a % 2 == 1 && b % 2 == 1 then 1 else 0)
  }

  /** JavaScript `|` on operands below 2^31 (here, bytes), bit by bit. */
  function BitOr(a: nat, b: nat): (r: nat)
    ensures a <= r && b <= r && r <= a + b
    decreases a + b
  {
    if a == 0 then b
    else if b == 0 then a
    else 2 * BitOr(a / 2, b / 2) + (if a % 2 == 1 || b % 2 == 1 then 1 else 0)
  }

  function Pow2(k: nat): (p: nat)
    ensures p >= 1
  {
    if k == 0 then 1 else 2 * Pow2(k - 1)
  }

  lemma HalfMod(a: nat, m: nat)
    requires m >= 1
    ensures a % (2 * m) == 2 * ((a / 2) % m) + a % 2
  {
    var q := (a / 2) / m;
    var r := (a / 2) % m;
    assert a / 2 == q * m + r;
    assert a == q * (2 * m) + (2 * r + a % 2);
    Arith.DivModUnique(a, 2 * m, q, 2 * r + a % 2);
  }

  /** Masking with `2^k - 1` keeps the low `k` bits. */
  lemma {:induction false} AndLowMask(a: nat, k: nat)
    ensures BitAnd(a, Pow2(k) - 1) == a % Pow2(k)
    decreases k
  {
    var mask := Pow2(k) - 1;
    if k > 0 && a > 0 {
      var m := Pow2(k - 1);
      assert Pow2(k) == 2 * m;
      assert mask / 2 == m - 1 && mask % 2 == 1 by {
        assert mask == 2 * (m - 1) + 1;
      }
      var low := BitAnd(a / 2, m - 1);
      assert BitAnd(a, mask) == 2 * low + a % 2;
      assert low == (a / 2) % m by {
        AndLowMask(a / 2, k - 1);
      }
      assert 2 * ((a / 2) % m) + a % 2 == a % (2 * m) by {
        HalfMod(a, m);
      }
    } else if k == 0 {
      assert mask == 0 && Pow2(k) == 1;
      Arith.DivModUnique(a, 1, a, 0);
    } else {
      Arith.DivModUnique(0, Pow2(k), 0, 0);
    }
  }

  /** Setting bit `k` of a value below `2^k` adds `2^k`. */
  lemma {:induction false} OrHighBit(k: nat, x: nat)
    requires x < Pow2(k)
    ensures BitOr(Pow2(k), x) == Pow2(k) + x
    decreases k
  {
    if k > 0 && x > 0 {
      OrHighBit(k - 1, x / 2);
      assert Pow2(k) / 2 == Pow2(k - 1) && Pow2(k) % 2 == 0;
    }
  }

  /** Byte 6 carries version 4 in its high nibble: `0x40 | (b & 0x0F)`. */
  function SetVersion(b: Byte): (r: Byte)
    ensures r / 16 == 4 && r % 16 == b % 16
  {
    assert Pow2(4) == 16 && Pow2(6) == 64;
    AndLowMask(b, 4);
    OrHighBit(6, b % 16);
    BitOr(0x40, BitAnd(b, 0x0F))
  }

  /** Byte 8 carries variant 1 (`10` in its top two bits): `0x80 | (b & 0x3F)`. */
  function SetVariant(b: Byte): (r: Byte)
    ensures r / 64 == 2 && r % 64 == b % 64
  {
    assert Pow2(6) == 64 && Pow2(7) == 128;
    AndLowMask(b, 6);
    OrHighBit(7, b % 64);
    BitOr(0x80, BitAnd(b, 0x3F))
  }

  /** The two assignments to `randomBytes[6]` and `randomBytes[8]`. */
  function Stamp(bytes: seq<Byte>): (r: seq<Byte>)
    requires |bytes| == 16
    ensures |r| == 16
    ensures forall i :: 0 <= i < 16 && i != 6 && i != 8 ==> r[i] == bytes[i]
    ensures r[6] / 16 == 4 && r[6] % 16 == bytes[6] % 16
    ensures r[8] / 64 == 2 && r[8] % 64 == bytes[8] % 64
  {
    bytes[6 := SetVersion(bytes[6])][8 := SetVariant(bytes[8])]
  }

  // Hex rendering: `n.toString(16).padStart(2, '0')`

  predicate IsLowerHex(c: char) {
    ('0' <= c <= '9') || ('a' <= c <= 'f')
  }

  function HexDigit(d: nat): (c: char)
    requires d < 16
    ensures IsLowerHex(c)
  {
    if d < 10 then ('0' as int + d) as char else ('a' as int + d - 10) as char
  }

  /** Inverse of `HexDigit`. */
  function DigitValue(c: char): (d: nat)
    requires IsLowerHex(c)
    ensures d < 16 && HexDigit(d) == c
  {
    if c <= '9' then (c - '0') as nat else (c - 'a') as nat + 10
  }

  lemma DigitValueOfHexDigit(d: nat)
    requires d < 16
    ensures DigitValue(HexDigit(d)) == d
  {
  }

  /** Base-16 value of a hex string. */
  function HexValue(s: string): nat
    requires forall j :: 0 <= j < |s| ==> IsLowerHex(s[j])
  {
    if |s| == 0 then 0 else 16 * HexValue(s[..|s| - 1]) + DigitValue(s[|s| - 1])
  }

  /** `Number.prototype.toString(16)` on a non-negative integer: no leading
      zeros, lower-case digits. */
  function ToHex(n: nat): (r: string)
    ensures |r| >= 1
    ensures forall j :: 0 <= j < |r| ==> IsLowerHex(r[j])
    ensures HexValue(r) == n
    ensures n < 16 <==> |r| == 1
    ensures 16 <= n < 256 ==> |r| == 2
    decreases n
  {
    if n < 16 then
      DigitValueOfHexDigit(n);
      [HexDigit(n)]
    else
      var r := ToHex(n / 16) + [HexDigit(n % 16)];
      DigitValueOfHexDigit(n % 16);
      assert r[..|r| - 1] == ToHex(n / 16);
      r
  }

  /** `String.prototype.padStart(n, fill)` with a one-character fill. */
  function PadStart(s: string, n: nat, fill: char): (r: string)
    ensures |r| == if |s| >= n then |s| else n
    ensures r[|r| - |s|..] == s
    ensures forall j :: 0 <= j < |r| - |s| ==> r[j] == fill
  {
    if |s| >= n then s else seq(n - |s|, _ => fill) + s
  }

  /** The two characters written for one byte: its high and low nibble. */
  function ByteHex(b: Byte): (r: string)
    ensures |r| == 2 && IsLowerHex(r[0]) && IsLowerHex(r[1])
  {
    [HexDigit(b / 16), HexDigit(b % 16)]
  }

  /** The two digits read back give the byte. */
  lemma ByteHexValue(b: Byte)
    ensures 16 * DigitValue(ByteHex(b)[0]) + DigitValue(ByteHex(b)[1]) == b
  {
    DigitValueOfHexDigit(b / 16);
    DigitValueOfHexDigit(b % 16);
  }

  /** `b.toString(16).padStart(2, '0')` is exactly `ByteHex(b)`. */
  lemma PaddedToStringIsByteHex(b: Byte)
    ensures PadStart(ToHex(b), 2, '0') == ByteHex(b)
  {
    var n: nat := b;
    var h := ToHex(n);
    if n < 16 {
      assert PadStart(h, 2, '0') == ['0'] + h;
    } else {
      assert h == ToHex(n / 16) + [HexDigit(n % 16)];
      assert ToHex(n / 16) == [HexDigit(n / 16)];
    }
  }

  // The template replace: 'xxxx-xx-xx-xx-xxxxxx'.replace(/x/g, () => hex(bytes[pos++]))

  /** Number of `x` placeholders among template characters `i` to `j - 1`. */
  function XBetween(t: string, i: nat, j: nat): (n: nat)
    requires i <= j <= |t|
    ensures n <= j - i
    decreases j - i
  {
    if i == j then 0 else (if t[i] == 'x' then 1 else 0) + XBetween(t, i + 1, j)
  }

  /** The replace from template index `i` on, `pos` being the callback's
      count of bytes used so far: each `x` takes the hex of `bytes[pos]`
      and advances `pos`; other characters are copied. */
  function FillFrom(t: string, bytes: seq<Byte>, i: nat, pos: nat): (r: string)
    requires i <= |t|
    requires pos + XBetween(t, i, |t|) <= |bytes|
    ensures |r| == |t| - i + XBetween(t, i, |t|)
    decreases |t| - i
  {
    if i == |t| then ""
    else if t[i] == 'x' then ByteHex(bytes[pos]) + FillFrom(t, bytes, i + 1, pos + 1)
    else [t[i]] + FillFrom(t, bytes, i + 1, pos)
  }

  /** The whole replace, starting with `pos = 0`. */
  function FillTemplate(t: string, bytes: seq<Byte>): (r: string)
    requires XBetween(t, 0, |t|) <= |bytes|
    ensures |r| == |t| + XBetween(t, 0, |t|)
  {
    FillFrom(t, bytes, 0, 0)
  }

  /** The callback's counter after template character `i`. */
  function Next(t: string, i: nat, pos: nat): nat
    requires i < |t|
  {
    if t[i] == 'x' then pos + 1 else pos
  }

  /** The text written for template character `i`. */
  function Piece(t: string, bytes: seq<Byte>, i: nat, pos: nat): string
    requires i < |t|
    requires t[i] == 'x' ==> pos < |bytes|
  {
    if t[i] == 'x' then ByteHex(bytes[pos]) else [t[i]]
  }

  /** One step of the replace: the first character's piece, then the rest. */
  lemma FillStep(t: string, bytes: seq<Byte>, i: nat, pos: nat)
    requires i < |t|
    requires pos + XBetween(t, i, |t|) <= |bytes|
    ensures t[i] == 'x' ==> pos < |bytes|
    ensures FillFrom(t, bytes, i, pos) == Piece(t, bytes, i, pos) + FillFrom(t, bytes, i + 1, Next(t, i, pos))
  {
  }

  /** `r` holds the two hex digits of `x` at offsets `o` and `o + 1`. */
  predicate HexWritten(r: string, o: int, x: Byte) {
    0 <= o && o + 1 < |r| && r[o] == ByteHex(x)[0] && r[o + 1] == ByteHex(x)[1]
  }

  /** `r` holds `c` at offset `o`. */
  predicate CharWritten(r: string, o: int, c: char) {
    0 <= o < |r| && r[o] == c
  }

  lemma HexWrittenAppend(h: string, rest: string, o: int, x: Byte)
    requires HexWritten(rest, o, x)
    ensures HexWritten(h + rest, |h| + o, x)
  {
    assert (h + rest)[|h| + o] == rest[o] && (h + rest)[|h| + o + 1] == rest[o + 1];
  }

  lemma CharWrittenAppend(h: string, rest: string, o: int, c: char)
    requires CharWritten(rest, o, c)
    ensures CharWritten(h + rest, |h| + o, c)
  {
    assert (h + rest)[|h| + o] == rest[o];
  }

  /** A placeholder at `i` takes the byte `bytes[pos]`. */
  lemma FillHere(t: string, bytes: seq<Byte>, i: nat, pos: nat)
    requires i < |t| && t[i] == 'x'
    requires pos + XBetween(t, i, |t|) <= |bytes|
    ensures pos < |bytes| && HexWritten(FillFrom(t, bytes, i, pos), 0, bytes[pos])
  {
    FillStep(t, bytes, i, pos);
  }

  /** Another character at `i` is copied. */
  lemma CopyHere(t: string, bytes: seq<Byte>, i: nat, pos: nat)
    requires i < |t| && t[i] != 'x'
    requires pos + XBetween(t, i, |t|) <= |bytes|
    ensures CharWritten(FillFrom(t, bytes, i, pos), 0, t[i])
  {
    FillStep(t, bytes, i, pos);
  }

  /** What the replace writes for placeholder `j` moves right by the piece
      written for character `i` in front of it. */
  lemma FillShift(t: string, bytes: seq<Byte>, i: nat, pos: nat, j: nat)
    requires i < j < |t|
    requires pos + XBetween(t, i, |t|) <= |bytes|
    requires Next(t, i, pos) + XBetween(t, i + 1, j) < |bytes|
    requires HexWritten(FillFrom(t, bytes, i + 1, Next(t, i, pos)), j - (i + 1) + XBetween(t, i + 1, j),
                        bytes[Next(t, i, pos) + XBetween(t, i + 1, j)])
    ensures pos + XBetween(t, i, j) < |bytes|
    ensures HexWritten(FillFrom(t, bytes, i, pos), j - i + XBetween(t, i, j), bytes[pos + XBetween(t, i, j)])
  {
    FillStep(t, bytes, i, pos);
    HexWrittenAppend(Piece(t, bytes, i, pos), FillFrom(t, bytes, i + 1, Next(t, i, pos)),
                     j - (i + 1) + XBetween(t, i + 1, j), bytes[Next(t, i, pos) + XBetween(t, i + 1, j)]);
  }

  /** The same for a copied character `j`. */
  lemma CopyShift(t: string, bytes: seq<Byte>, i: nat, pos: nat, j: nat)
    requires i < j < |t|
    requires pos + XBetween(t, i, |t|) <= |bytes|
    requires CharWritten(FillFrom(t, bytes, i + 1, Next(t, i, pos)), j - (i + 1) + XBetween(t, i + 1, j), t[j])
    ensures CharWritten(FillFrom(t, bytes, i, pos), j - i + XBetween(t, i, j), t[j])
  {
    FillStep(t, bytes, i, pos);
    CharWrittenAppend(Piece(t, bytes, i, pos), FillFrom(t, bytes, i + 1, Next(t, i, pos)),
                      j - (i + 1) + XBetween(t, i + 1, j), t[j]);
  }

  /** Where the replace started at `i` writes a placeholder `j`: after the
      characters from `i` to `j`, each `x` among them having grown to two,
      and with the byte after the ones those `x`s used. */
  lemma {:induction false} FillAtPlaceholder(t: string, bytes: seq<Byte>, i: nat, pos: nat, j: nat)
    requires i <= j < |t| && t[j] == 'x'
    requires pos + XBetween(t, i, |t|) <= |bytes|
    ensures pos + XBetween(t, i, j) < |bytes|
    ensures HexWritten(FillFrom(t, bytes, i, pos), j - i + XBetween(t, i, j), bytes[pos + XBetween(t, i, j)])
    decreases j - i
  {
    if i == j {
      FillHere(t, bytes, i, pos);
    } else {
      FillAtPlaceholder(t, bytes, i + 1, Next(t, i, pos), j);
      FillShift(t, bytes, i, pos, j);
    }
  }

  /** Where the replace started at `i` copies another character `j`. */
  lemma {:induction false} FillAtOther(t: string, bytes: seq<Byte>, i: nat, pos: nat, j: nat)
    requires i <= j < |t| && t[j] != 'x'
    requires pos + XBetween(t, i, |t|) <= |bytes|
    ensures CharWritten(FillFrom(t, bytes, i, pos), j - i + XBetween(t, i, j), t[j])
    decreases j - i
  {
    if i == j {
      CopyHere(t, bytes, i, pos);
    } else {
      FillAtOther(t, bytes, i + 1, Next(t, i, pos), j);
      CopyShift(t, bytes, i, pos, j);
    }
  }

  /** Template index of the `k`-th placeholder. */
  function XIndex(k: nat): nat {
    k + (if k >= 4 then 1 else 0) + (if k >= 6 then 1 else 0)
      + (if k >= 8 then 1 else 0) + (if k >= 10 then 1 else 0)
  }

  /** The template's placeholders and hyphens, and how many placeholders
      precede each of them. */
  lemma TemplateShape()
    ensures UuidShaped(Template)
  {
    TemplatePlaceholders();
    TemplateHyphens();
    PrefixCount(20);
  }

  lemma TemplatePlaceholders()
    ensures forall k :: 0 <= k < 16 ==> Template[XIndex(k)] == 'x' && XBetween(Template, 0, XIndex(k)) == k
  {
    TemplateChars();
    forall k | 0 <= k < 16
      ensures Template[XIndex(k)] == 'x' && XBetween(Template, 0, XIndex(k)) == k
    {
      PrefixCount(XIndex(k));
    }
  }

  lemma TemplateHyphens()
    ensures Template[4] == '-' && XBetween(Template, 0, 4) == 4
    ensures Template[7] == '-' && XBetween(Template, 0, 7) == 6
    ensures Template[10] == '-' && XBetween(Template, 0, 10) == 8
    ensures Template[13] == '-' && XBetween(Template, 0, 13) == 10
  {
    TemplateChars();
    PrefixCount(4);
    PrefixCount(7);
    PrefixCount(10);
    PrefixCount(13);
  }

  lemma TemplateChars()
    ensures |Template| == 20
    ensures forall j :: 0 <= j < 20 ==>
              Template[j] == (if j == 4 || j == 7 || j == 10 || j == 13 then '-' else 'x')
  {
  }

  /** Placeholders in the template before index `j`. */
  function TemplateXs(j: nat): nat {
    j - (if j > 4 then 1 else 0) - (if j > 7 then 1 else 0) - (if j > 10 then 1 else 0) - (if j > 13 then 1 else 0)
  }

  /** Placeholders among template characters `i` to `j - 1`. */
  lemma {:induction false} RangeCount(i: nat, j: nat)
    requires i <= j <= 20
    ensures XBetween(Template, i, j) == TemplateXs(j) - TemplateXs(i)
    decreases j - i
  {
    TemplateChars();
    if i < j {
      RangeCount(i + 1, j);
    }
  }

  lemma PrefixCount(j: nat)
    requires j <= 20
    ensures XBetween(Template, 0, j) == TemplateXs(j)
  {
    RangeCount(0, j);
  }

  /** Column of the first hex digit of byte `k` in the 36-character form. */
  function HexPos(k: nat): nat {
    XIndex(k) + k
  }

  predicate IsHyphenPos(i: int) {
    i == 8 || i == 13 || i == 18 || i == 23
  }

  /** The byte whose hex covers column `i` (for a non-hyphen column). */
  function ByteAt(i: nat): (k: nat)
    requires i < 36 && !IsHyphenPos(i)
    ensures k < 16 && (i == HexPos(k) || i == HexPos(k) + 1)
  {
    if i < 8 then i / 2
    else if i < 13 then 4 + (i - 9) / 2
    else if i < 18 then 6 + (i - 14) / 2
    else if i < 23 then 8 + (i - 19) / 2
    else 10 + (i - 24) / 2
  }

  /** A template with the shape of `Template`. */
  predicate UuidShaped(t: string) {
    && |t| == 20 && XBetween(t, 0, 20) == 16
    && (forall k :: 0 <= k < 16 ==> t[XIndex(k)] == 'x' && XBetween(t, 0, XIndex(k)) == k)
    && t[4] == '-' && XBetween(t, 0, 4) == 4
    && t[7] == '-' && XBetween(t, 0, 7) == 6
    && t[10] == '-' && XBetween(t, 0, 10) == 8
    && t[13] == '-' && XBetween(t, 0, 13) == 10
  }

  /** 36 characters: hyphens exactly at columns 8, 13, 18 and 23 and
      lower-case hex digits everywhere else. */
  predicate UuidLayout(u: string) {
    && |u| == 36
    && (forall i :: 0 <= i < 36 ==> (u[i] == '-' <==> IsHyphenPos(i)))
    && (forall i :: 0 <= i < 36 && !IsHyphenPos(i) ==> IsLowerHex(u[i]))
  }

  /** Byte `k` is written, zero-padded, at columns `HexPos(k)` and `HexPos(k) + 1`. */
  predicate BytesAt(u: string, b: seq<Byte>)
    requires |u| == 36 && |b| == 16
  {
    forall k :: 0 <= k < 16 ==> u[HexPos(k)] == ByteHex(b[k])[0] && u[HexPos(k) + 1] == ByteHex(b[k])[1]
  }

  /** Byte `k`'s two hex digits land at `HexPos(k)`. */
  lemma ByteLands(t: string, b: seq<Byte>, k: nat)
    requires UuidShaped(t) && |b| == 16 && k < 16
    ensures FillTemplate(t, b)[HexPos(k)] == ByteHex(b[k])[0]
    ensures FillTemplate(t, b)[HexPos(k) + 1] == ByteHex(b[k])[1]
  {
    FillAtPlaceholder(t, b, 0, 0, XIndex(k));
  }

  /** Each byte's two hex digits land at `HexPos`. */
  lemma FillBytes(t: string, b: seq<Byte>)
    requires UuidShaped(t) && |b| == 16
    ensures |FillTemplate(t, b)| == 36 && BytesAt(FillTemplate(t, b), b)
  {
    forall k | 0 <= k < 16
      ensures FillTemplate(t, b)[HexPos(k)] == ByteHex(b[k])[0] && FillTemplate(t, b)[HexPos(k) + 1] == ByteHex(b[k])[1]
    {
      ByteLands(t, b, k);
    }
  }

  /** A column covered by a byte holds one of its hex digits. */
  lemma HexColumn(r: string, b: seq<Byte>, i: nat)
    requires |r| == 36 && |b| == 16 && BytesAt(r, b)
    requires i < 36 && !IsHyphenPos(i)
    ensures IsLowerHex(r[i]) && r[i] != '-'
  {
    var k := ByteAt(i);
  }

  /** The template's four hyphens land at columns 8, 13, 18 and 23. */
  lemma HyphensLand(t: string, b: seq<Byte>)
    requires UuidShaped(t) && |b| == 16
    ensures var r := FillTemplate(t, b);
      |r| == 36 && r[8] == '-' && r[13] == '-' && r[18] == '-' && r[23] == '-'
  {
    HyphenLands(t, b, 4);
    HyphenLands(t, b, 7);
    HyphenLands(t, b, 10);
    HyphenLands(t, b, 13);
  }

  lemma HyphenLands(t: string, b: seq<Byte>, j: nat)
    requires XBetween(t, 0, |t|) <= |b| && j < |t| && t[j] == '-'
    ensures j + XBetween(t, 0, j) < |FillTemplate(t, b)|
    ensures FillTemplate(t, b)[j + XBetween(t, 0, j)] == '-'
  {
    FillAtOther(t, b, 0, 0, j);
  }

  /** The hyphens land at columns 8, 13, 18 and 23, hex digits elsewhere. */
  lemma FillHyphens(t: string, b: seq<Byte>)
    requires UuidShaped(t) && |b| == 16
    ensures UuidLayout(FillTemplate(t, b))
  {
    var r := FillTemplate(t, b);
    FillBytes(t, b);
    HyphensLand(t, b);
    forall i | 0 <= i < 36
      ensures r[i] == '-' <==> IsHyphenPos(i)
    {
      if !IsHyphenPos(i) {
        HexColumn(r, b, i);
      }
    }
    forall i | 0 <= i < 36 && !IsHyphenPos(i)
      ensures IsLowerHex(r[i])
    {
      HexColumn(r, b, i);
    }
  }

  /** `uuidv4` with its random bytes given: the stamped bytes, in order,
      in the 8-4-4-4-12 layout. */
  function UuidV4(randomBytes: seq<Byte>): (r: string)
    requires |randomBytes| == 16
    ensures UuidLayout(r)
    ensures BytesAt(r, Stamp(randomBytes))
  {
    var b := Stamp(randomBytes);
    TemplateShape();
    FillBytes(Template, b);
    FillHyphens(Template, b);
    FillTemplate(Template, b)
  }

  /** The version digit is `4` and the variant digit one of `8 9 a b`. */
  lemma UuidV4VersionVariant(randomBytes: seq<Byte>)
    requires |randomBytes| == 16
    ensures UuidV4(randomBytes)[14] == '4'
    ensures UuidV4(randomBytes)[19] in "89ab"
  {
    var b := Stamp(randomBytes);
    var r := UuidV4(randomBytes);
    assert HexPos(6) == 14 && HexPos(8) == 19;
    assert r[14] == ByteHex(b[6])[0] && r[19] == ByteHex(b[8])[0];
    VersionDigit(b[6]);
    VariantDigit(b[8]);
  }

  lemma VersionDigit(b: Byte)
    requires b / 16 == 4
    ensures ByteHex(b)[0] == '4'
  {
  }

  lemma VariantDigit(b: Byte)
    requires b / 64 == 2
    ensures ByteHex(b)[0] in "89ab"
  {
    assert 8 <= b / 16 < 12;
    var d := b / 16;
    if d == 8 {} else if d == 9 {} else if d == 10 {} else {}
  }

  /** Reads the sixteen bytes back from a string of the `UuidLayout`
      shape; `None` for anything else. */
  function ParseUuid(u: string): (r: Option<seq<Byte>>)
    ensures r.Some? <==> UuidLayout(u)
    ensures r.Some? ==> |r.value| == 16
  {
    if UuidLayout(u) then
      Some(seq(16, k requires 0 <= k < 16 => PairAt(u, k)))
    else None
  }

  /** The byte whose two hex digits start at `HexPos(k)`. */
  function PairAt(u: string, k: nat): Byte
    requires UuidLayout(u) && k < 16
  {
    var i := HexPos(k);
    assert !IsHyphenPos(i) && !IsHyphenPos(i + 1);
    16 * DigitValue(u[i]) + DigitValue(u[i + 1])
  }

  lemma PairOfByteHex(u: string, k: nat, x: Byte)
    requires UuidLayout(u) && k < 16
    requires u[HexPos(k)] == ByteHex(x)[0] && u[HexPos(k) + 1] == ByteHex(x)[1]
    ensures PairAt(u, k) == x
  {
    ByteHexValue(x);
  }

  /** Parsing an identifier gives back exactly the stamped bytes. */
  lemma ParseUuidV4(randomBytes: seq<Byte>)
    requires |randomBytes| == 16
    ensures ParseUuid(UuidV4(randomBytes)) == Some(Stamp(randomBytes))
  {
    ParseLaidOut(UuidV4(randomBytes), Stamp(randomBytes));
  }

  lemma ParseLaidOut(u: string, b: seq<Byte>)
    requires UuidLayout(u) && |b| == 16 && BytesAt(u, b)
    ensures ParseUuid(u) == Some(b)
  {
    var parsed := ParseUuid(u).value;
    forall k | 0 <= k < 16
      ensures parsed[k] == b[k]
    {
      PairOfByteHex(u, k, b[k]);
    }
    assert parsed == b;
  }

  /** A column of a laid-out text holding the bytes parsed from `u` agrees
      with `u`. */
  lemma ColumnAgrees(r: string, u: string, i: nat)
    requires UuidLayout(r) && UuidLayout(u) && i < 36
    requires BytesAt(r, ParseUuid(u).value)
    ensures r[i] == u[i]
  {
    if !IsHyphenPos(i) {
      var b := ParseUuid(u).value;
      var k := ByteAt(i);
      var hi, lo := DigitValue(u[HexPos(k)]), DigitValue(u[HexPos(k) + 1]);
      assert b[k] == PairAt(u, k) == 16 * hi + lo;
      Arith.DivModUnique(b[k], 16, hi, lo);
    }
  }

  /** Filling a template of the right shape with the parsed bytes gives the
      text back. */
  lemma RenderLaidOut(t: string, u: string)
    requires UuidShaped(t) && UuidLayout(u)
    ensures FillTemplate(t, ParseUuid(u).value) == u
  {
    var b := ParseUuid(u).value;
    var r := FillTemplate(t, b);
    FillBytes(t, b);
    FillHyphens(t, b);
    forall i | 0 <= i < 36
      ensures r[i] == u[i]
    {
      ColumnAgrees(r, u, i);
    }
  }

  /** Stamping leaves bytes that already carry version and variant alone. */
  lemma StampFixed(b: seq<Byte>)
    requires |b| == 16 && b[6] / 16 == 4 && b[8] / 64 == 2
    ensures Stamp(b) == b
  {
    var s := Stamp(b);
    assert s[6] == 16 * (s[6] / 16) + s[6] % 16 && b[6] == 16 * (b[6] / 16) + b[6] % 16;
    assert s[8] == 64 * (s[8] / 64) + s[8] % 64 && b[8] == 64 * (b[8] / 64) + b[8] % 64;
  }

  /** Every text of the identifier layout with version digit `4` and a
      variant digit in `8 9 a b` is produced by `UuidV4`, from its own
      parsed bytes. */
  lemma UuidV4Onto(u: string)
    requires UuidLayout(u) && u[14] == '4' && u[19] in "89ab"
    ensures UuidV4(ParseUuid(u).value) == u
  {
    var b := ParseUuid(u).value;
    assert HexPos(6) == 14 && HexPos(8) == 19;
    assert b[6] == PairAt(u, 6) && b[8] == PairAt(u, 8);
    assert b[6] / 16 == 4 by {
      Arith.DivModUnique(b[6], 16, 4, DigitValue(u[15]));
    }
    assert b[8] / 64 == 2 by {
      var d := DigitValue(u[19]);
      assert 8 <= d < 12;
      Arith.DivModUnique(b[8], 64, 2, 16 * (d - 8) + DigitValue(u[20]));
    }
    StampFixed(b);
    TemplateShape();
    RenderLaidOut(Template, u);
  }

  /** Identifiers differ whenever the stamped bytes differ. */
  lemma UuidV4Injective(a: seq<Byte>, b: seq<Byte>)
    requires |a| == 16 && |b| == 16
    requires UuidV4(a) == UuidV4(b)
    ensures Stamp(a) == Stamp(b)
  {
    ParseUuidV4(a);
    ParseUuidV4(b);
  }
}
