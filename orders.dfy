/**
 The one entity, CoffeeOrder, and the key it is stored under:
 "coffeeorder:" followed by the lowercase hexadecimal form of its
 12-byte ObjectID.
 */
module Orders {
  import opened Keys

  /** Go's byte / uint8. */
  newtype byte = x: int | 0 <= x < 256

  /** A BSON ObjectID: twelve bytes, the first four a big-endian timestamp. */
  type ObjectId = s: seq<byte> | |s| == 12 witness [0, 0, 0, 0, 0, 0, 0, 0, 0, 0, 0, 0]

  datatype CoffeeOrder = CoffeeOrder(
    id: ObjectId,
    coffee: string,
    emailAddress: string,
    flavor: string,
    strength: byte)

  /** The fixed prefix of every order key. */
  const RecordPrefix: string := "coffeeorder:"

  predicate IsRecordKey(k: string)
  {
    HasPrefix(k, RecordPrefix)
  }

  /** Lowercase hexadecimal digit of a nibble. */
  function HexDigit(n: int): (c: char)
    requires 0 <= n < 16
    ensures '0' <= c <= '9' || 'a' <= c <= 'f'
  {
    if n < 10 then ('0' as int + n) as char else ('a' as int + n - 10) as char
  }

  predicate IsHexDigit(c: char)
  {
    '0' <= c <= '9' || 'a' <= c <= 'f'
  }

  /** The nibble a lowercase hexadecimal digit stands for. */
  function DigitValue(c: char): (n: int)
    requires IsHexDigit(c)
    ensures 0 <= n < 16 && HexDigit(n) == c
  {
    if c <= '9' then c as int - '0' as int else c as int - 'a' as int + 10
  }

  /** hex.EncodeToString, as used by ObjectID.Hex: two lowercase digits per
      byte, high nibble first. */
  function Hex(b: seq<byte>): (s: string)
    ensures |s| == 2 * |b|
    ensures forall i :: 0 <= i < |s| ==> IsHexDigit(s[i])
  {
    if b == [] then []
    else [HexDigit(b[0] as int / 16), HexDigit(b[0] as int % 16)] + Hex(b[1..])
  }

  /** The inverse of Hex on well-formed input. */
  function FromHex(s: string): (b: seq<byte>)
    requires |s| % 2 == 0
    requires forall i :: 0 <= i < |s| ==> IsHexDigit(s[i])
    ensures 2 * |b| == |s|
  {
    if s == [] then []
    else [(DigitValue(s[0]) * 16 + DigitValue(s[1])) as byte] + FromHex(s[2..])
  }

  lemma {:induction false} HexRoundTrip(b: seq<byte>)
    ensures FromHex(Hex(b)) == b
  {
    if b != [] {
      var x := b[0] as int;
      var h := Hex(b);
      assert h[2..] == Hex(b[1..]);
      assert DigitValue(h[0]) == x / 16 && DigitValue(h[1]) == x % 16 by {
        HexDigitInjective(DigitValue(h[0]), x / 16);
        HexDigitInjective(DigitValue(h[1]), x % 16);
      }
      HexRoundTrip(b[1..]);
      assert b == [b[0]] + b[1..];
    }
  }

  lemma HexDigitInjective(m: int, n: int)
    requires 0 <= m < 16 && 0 <= n < 16
    ensures HexDigit(m) == HexDigit(n) <==> m == n
  {
  }

  lemma HexDigitMonotone(m: int, n: int)
    requires 0 <= m < 16 && 0 <= n < 16
    ensures HexDigit(m) < HexDigit(n) <==> m < n
  {
  }

  /** The store key of an order with this ID (main.go:116 and main.go:161). */
  function OrderKey(id: ObjectId): (k: string)
    ensures IsRecordKey(k)
    ensures |k| == |RecordPrefix| + 24
  {
    assert (RecordPrefix + Hex(id))[..|RecordPrefix|] == RecordPrefix;
    RecordPrefix + Hex(id)
  }

  /** Distinct IDs give distinct keys, so a fresh ID never overwrites an
      existing order. */
  lemma OrderKeyInjective(a: ObjectId, b: ObjectId)
    ensures OrderKey(a) == OrderKey(b) <==> a == b
  {
    if OrderKey(a) == OrderKey(b) {
      assert Hex(a) == OrderKey(a)[|RecordPrefix|..];
      assert Hex(b) == OrderKey(b)[|RecordPrefix|..];
      HexRoundTrip(a);
      HexRoundTrip(b);
    }
  }

  /** Lexicographic order on byte strings of equal length. */
  predicate BytesBelow(a: seq<byte>, b: seq<byte>)
    requires |a| == |b|
  {
    |a| > 0 && (a[0] < b[0] || (a[0] == b[0] && BytesBelow(a[1..], b[1..])))
  }

  /** Hex encoding preserves the byte order of IDs. */
  lemma {:induction false} HexPreservesOrder(a: seq<byte>, b: seq<byte>)
    requires |a| == |b|
    ensures Below(Hex(a), Hex(b)) <==> BytesBelow(a, b)
  {
    if |a| == 0 {
    } else {
      var x, y := a[0] as int, b[0] as int;
      var ha, hb := Hex(a), Hex(b);
      var ra, rb := Hex(a[1..]), Hex(b[1..]);
      assert ha == [HexDigit(x / 16)] + ([HexDigit(x % 16)] + ra);
      assert hb == [HexDigit(y / 16)] + ([HexDigit(y % 16)] + rb);
      assert ha[1..] == [HexDigit(x % 16)] + ra;
      assert hb[1..] == [HexDigit(y % 16)] + rb;
      assert ha[1..][1..] == ra && hb[1..][1..] == rb;
      HexDigitMonotone(x / 16, y / 16);
      HexDigitMonotone(x % 16, y % 16);
      HexDigitInjective(x / 16, y / 16);
      HexDigitInjective(x % 16, y % 16);
      assert x == 16 * (x / 16) + x % 16;
      assert y == 16 * (y / 16) + y % 16;
      HexPreservesOrder(a[1..], b[1..]);
    }
  }

  /** Ascending key order is ascending ID order: the greatest key of a set of
      orders belongs to the greatest ID, which for time-ordered IDs is the
      most recently created one. */
  lemma OrderKeyOrder(a: ObjectId, b: ObjectId)
    ensures Below(OrderKey(a), OrderKey(b)) <==> BytesBelow(a, b)
  {
    BelowCommonPrefix(RecordPrefix, Hex(a), Hex(b));
    HexPreservesOrder(a, b);
  }
}
