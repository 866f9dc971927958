/** UTF-8 as RFC 3629 defines it, and the replacement of invalid bytes in event messages. */
module Utf8 {
  import opened Bytes

  // ---- characters and their encodings, section 3 of RFC 3629

  const REPLACEMENT := 0xFFFD

  predicate IsScalar(r: int) { 0 <= r < 0xD800 || 0xDFFF < r <= 0x10FFFF }

  function EncodeRune(r: int): (s: bytes)
    requires IsScalar(r)
    ensures 1 <= |s| <= 4 && (r < 0x1_0000 ==> |s| <= 3)
  {
    if r < 0x80 then [r]
    else if r < 0x800 then [0xC0 + r / 64, 0x80 + r % 64]
    else if r < 0x1_0000 then [0xE0 + r / 64 / 64, 0x80 + r / 64 % 64, 0x80 + r % 64]
    else [0xF0 + r / 64 / 64 / 64, 0x80 + r / 64 / 64 % 64, 0x80 + r / 64 % 64, 0x80 + r % 64]
  }

  function EncodeAll(rs: seq<int>): bytes
    requires forall r | r in rs :: IsScalar(r)
  {
    if rs == [] then [] else EncodeRune(rs[0]) + EncodeAll(rs[1..])
  }

  // ---- the grammar of valid bytes, section 4 of RFC 3629

  predicate Tail(x: byte) { 0x80 <= x <= 0xBF }

  predicate FirstTwoOfThree(x: byte, y: byte) {
    || (x == 0xE0 && 0xA0 <= y <= 0xBF)
    || (0xE1 <= x <= 0xEC && Tail(y))
    || (x == 0xED && 0x80 <= y <= 0x9F)
    || (0xEE <= x <= 0xEF && Tail(y))
  }

  predicate FirstTwoOfFour(x: byte, y: byte) {
    || (x == 0xF0 && 0x90 <= y <= 0xBF)
    || (0xF1 <= x <= 0xF3 && Tail(y))
    || (x == 0xF4 && 0x80 <= y <= 0x8F)
  }

  /** Length of the valid character at the front of `b`, 0 if there is none. */
  function CharLen(b: bytes): (n: nat)
    ensures n <= |b| && n <= 4
  {
    if |b| >= 1 && b[0] <= 0x7F then 1
    else if |b| >= 2 && 0xC2 <= b[0] <= 0xDF && Tail(b[1]) then 2
    else if |b| >= 3 && FirstTwoOfThree(b[0], b[1]) && Tail(b[2]) then 3
    else if |b| >= 4 && FirstTwoOfFour(b[0], b[1]) && Tail(b[2]) && Tail(b[3]) then 4
    else 0
  }

  predicate Valid(b: bytes) {
    b == [] || (CharLen(b) > 0 && Valid(b[CharLen(b)..]))
  }

  // ---- decoding

  /** The number formed by six-bit digits. */
  function SixBits(hi: int, lo: int): int { 64 * hi + lo }

  function Value(b: bytes): int
    requires CharLen(b) > 0
  {
    match CharLen(b)
    case 1 => b[0]
    case 2 => SixBits(b[0] - 0xC0, b[1] - 0x80)
    case 3 => SixBits(SixBits(b[0] - 0xE0, b[1] - 0x80), b[2] - 0x80)
    case _ => SixBits(SixBits(SixBits(b[0] - 0xF0, b[1] - 0x80), b[2] - 0x80), b[3] - 0x80)
  }

  /** The first rune of `b` and its width; an invalid byte counts as a replacement character of width 1. */
  function DecodeRune(b: bytes): (int, nat) {
    if b == [] then (REPLACEMENT, 0)
    else if CharLen(b) == 0 then (REPLACEMENT, 1)
    else (Value(b), CharLen(b))
  }

  lemma SixBitDigits(hi: int, lo: int)
    requires 0 <= lo < 64
    ensures SixBits(hi, lo) / 64 == hi && SixBits(hi, lo) % 64 == lo
  {}

  lemma Char2IsEncoding(b: bytes)
    requires CharLen(b) == 2
    ensures IsScalar(Value(b)) && EncodeRune(Value(b)) == b[..2]
  {
    SixBitDigits(b[0] - 0xC0, b[1] - 0x80);
  }

  lemma Char3IsEncoding(b: bytes)
    requires CharLen(b) == 3
    ensures IsScalar(Value(b)) && EncodeRune(Value(b)) == b[..3]
  {
    var r := SixBits(b[0] - 0xE0, b[1] - 0x80);
    SixBitDigits(b[0] - 0xE0, b[1] - 0x80);
    SixBitDigits(r, b[2] - 0x80);
  }

  lemma Char4IsEncoding(b: bytes)
    requires CharLen(b) == 4
    ensures IsScalar(Value(b)) && EncodeRune(Value(b)) == b[..4]
  {
    var r := SixBits(b[0] - 0xF0, b[1] - 0x80);
    var r' := SixBits(r, b[2] - 0x80);
    SixBitDigits(b[0] - 0xF0, b[1] - 0x80);
    SixBitDigits(r, b[2] - 0x80);
    SixBitDigits(r', b[3] - 0x80);
  }

  lemma CharIsEncoding(b: bytes)
    ensures CharLen(b) > 0 ==> IsScalar(Value(b)) && EncodeRune(Value(b)) == b[..CharLen(b)]
  {
    hide SixBits;
    match CharLen(b)
    case 0 =>
    case 1 =>
    case 2 => Char2IsEncoding(b);
    case 3 => Char3IsEncoding(b);
    case _ => Char4IsEncoding(b);
  }

  /** What the loop of `Sanitize` writes for `b`. */
  function Rebuild(b: bytes): bytes {
    if b == [] then []
    else
      var (r, size) := DecodeRune(b);
      CharIsEncoding(b);
      EncodeRune(r) + Rebuild(b[size..])
  }

  function Sanitized(b: bytes): bytes { if Valid(b) then b else Rebuild(b) }

  method Sanitize(b: bytes) returns (s: bytes)
    ensures s == Sanitized(b)
  {
    hide CharLen, Value, EncodeRune;
    if Valid(b) {
      return b;
    }
    var rest := b;
    s := [];
    while |rest| > 0
      invariant s + Rebuild(rest) == Rebuild(b)
      decreases |rest|
    {
      var (r, size) := DecodeRune(rest);
      CharIsEncoding(rest);
      s := s + EncodeRune(r);
      rest := rest[size..];
    }
  }

  // ---- the grammar accepts exactly the encodings

  lemma EncodingIsChar(r: int, rest: bytes)
    requires IsScalar(r)
    ensures CharLen(EncodeRune(r) + rest) == |EncodeRune(r)| && Value(EncodeRune(r) + rest) == r
  {
    var s := EncodeRune(r);
    assert forall i :: 0 <= i < |s| ==> (s + rest)[i] == s[i];
  }

  function Runes(b: bytes): (rs: seq<int>)
    requires Valid(b)
    ensures forall r | r in rs :: IsScalar(r)
  {
    if b == [] then [] else
      CharIsEncoding(b);
      [Value(b)] + Runes(b[CharLen(b)..])
  }

  lemma EncodeCons(rs: seq<int>)
    requires forall r | r in rs :: IsScalar(r)
    ensures EncodeAll(rs) == if rs == [] then [] else EncodeRune(rs[0]) + EncodeAll(rs[1..])
  {
    hide EncodeRune, IsScalar;
  }

  lemma {:induction false} ValidIsEncoded(b: bytes)
    requires Valid(b)
    ensures EncodeAll(Runes(b)) == b
  {
    hide CharLen, Value, EncodeRune, IsScalar, EncodeAll;
    if b == [] {
      EncodeCons([]);
    } else {
      var n := CharLen(b);
      CharIsEncoding(b);
      ValidIsEncoded(b[n..]);
      assert Runes(b)[1..] == Runes(b[n..]);
      EncodeCons(Runes(b));
    }
  }

  lemma {:induction false} EncodedIsValid(rs: seq<int>)
    requires forall r | r in rs :: IsScalar(r)
    ensures Valid(EncodeAll(rs)) && Runes(EncodeAll(rs)) == rs
  {
    hide CharLen, Value, EncodeRune;
    if rs != [] {
      EncodedIsValid(rs[1..]);
      EncodingIsChar(rs[0], EncodeAll(rs[1..]));
      assert EncodeAll(rs)[|EncodeRune(rs[0])|..] == EncodeAll(rs[1..]);
    }
  }

  /** The grammar accepts exactly the concatenations of encoded characters. */
  lemma ValidExactly(b: bytes)
    ensures Valid(b) <==> exists rs: seq<int> :: (forall r | r in rs :: IsScalar(r)) && EncodeAll(rs) == b
  {
    if Valid(b) {
      ValidIsEncoded(b);
    }
    forall rs: seq<int> | (forall r | r in rs :: IsScalar(r)) && EncodeAll(rs) == b ensures Valid(b) {
      EncodedIsValid(rs);
    }
  }

  // ---- properties of the replacement

  lemma {:induction false} RebuildOfValid(b: bytes)
    requires Valid(b)
    ensures Rebuild(b) == b
  {
    hide CharLen, Value, EncodeRune;
    if b != [] {
      var n := CharLen(b);
      CharIsEncoding(b);
      RebuildOfValid(b[n..]);
      assert b == b[..n] + b[n..];
    }
  }

  lemma {:induction false} RebuildIsValid(b: bytes)
    ensures Valid(Rebuild(b)) && |Rebuild(b)| <= 3 * |b|
  {
    hide CharLen, Value, EncodeRune;
    if b != [] {
      var (r, size) := DecodeRune(b);
      CharIsEncoding(b);
      RebuildIsValid(b[size..]);
      EncodingIsChar(r, Rebuild(b[size..]));
      assert Rebuild(b)[|EncodeRune(r)|..] == Rebuild(b[size..]);
    }
  }

  lemma CharLenOfAppended(a: bytes, b: bytes)
    requires CharLen(a) > 0
    ensures CharLen(a + b) == CharLen(a) && Value(a + b) == Value(a)
    ensures (a + b)[CharLen(a)..] == a[CharLen(a)..] + b
  {}

  lemma {:induction false} RebuildOfAppended(a: bytes, b: bytes)
    requires Valid(a)
    ensures Rebuild(a + b) == a + Rebuild(b)
    ensures Valid(a + b) <==> Valid(b)
  {
    hide CharLen, Value, EncodeRune;
    if a == [] {
      assert a + b == b;
    } else {
      var n := CharLen(a);
      CharLenOfAppended(a, b);
      CharIsEncoding(a);
      CharIsEncoding(a + b);
      RebuildOfAppended(a[n..], b);
      assert a == a[..n] + a[n..];
    }
  }

  /** Messages are always valid UTF-8, at most three times as long as the output, and sanitizing again
      changes nothing; the early return agrees with the loop. */
  lemma SanitizedIsValid(b: bytes)
    ensures Valid(Sanitized(b)) && |Sanitized(b)| <= 3 * |b|
    ensures Sanitized(Sanitized(b)) == Sanitized(b)
    ensures Sanitized(b) == Rebuild(b)
    ensures Sanitized(b) == b <==> Valid(b)
  {
    RebuildIsValid(b);
    if Valid(b) {
      RebuildOfValid(b);
    }
  }

  /** A valid part in front is passed through, whatever follows it. */
  lemma SanitizedOfAppended(a: bytes, b: bytes)
    requires Valid(a)
    ensures Sanitized(a + b) == Sanitized(a) + Sanitized(b)
  {
    RebuildOfAppended(a, b);
    SanitizedIsValid(b);
    SanitizedIsValid(a + b);
  }

  /** A byte that starts no character is replaced, alone, and what follows is read afresh. */
  lemma SanitizedOfInvalidByte(a: bytes, b: bytes)
    requires Valid(a) && b != [] && CharLen(b) == 0
    ensures Sanitized(a + b) == a + [0xEF, 0xBF, 0xBD] + Sanitized(b[1..])
  {
    assert EncodeRune(REPLACEMENT) == [0xEF, 0xBF, 0xBD];
    hide CharLen, Value, EncodeRune;
    SanitizedOfAppended(a, b);
    SanitizedIsValid(b[1..]);
  }
}
