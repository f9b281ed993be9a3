/**
 * Bytes and the three text encodings the camera utilities rely on:
 * latin-1 (how `http.server` encodes header lines), decimal (`str(int)`,
 * used for `Content-Length`) and UTF-8 (`PAGE.encode("utf-8")`).
 */
module Text {
  import opened Wrappers

  newtype byte = x: int | 0 <= x < 256

  /** Flattens a sequence of byte strings, as `b"".join(...)` does. */
  function Concat(chunks: seq<seq<byte>>): (r: seq<byte>)
    decreases |chunks|
  {
    if chunks == [] then [] else Concat(chunks[..|chunks| - 1]) + chunks[|chunks| - 1]
  }

  lemma {:induction false} ConcatAppend(a: seq<seq<byte>>, b: seq<seq<byte>>)
    ensures Concat(a + b) == Concat(a) + Concat(b)
    decreases |b|
  {
    if b == [] {
      assert a + b == a;
    } else {
      var b' := b[..|b| - 1];
      assert (a + b)[..|a + b| - 1] == a + b';
      ConcatAppend(a, b');
    }
  }

  /**
   * The latin-1 encoding of header text. Every character carries its code
   * point as a byte; the header text of this system is ASCII throughout.
   */
  function Latin1(s: string): (r: seq<byte>)
    ensures |r| == |s|
  {
    seq(|s|, i requires 0 <= i < |s| => (s[i] as int % 256) as byte)
  }

  lemma {:induction false} Latin1Append(a: string, b: string)
    ensures Latin1(a + b) == Latin1(a) + Latin1(b)
  {
  }

  const CRLF: seq<byte> := Latin1("\r\n")

  // ---------------------------------------------------------------------
  // Decimal numerals: Python's `str(n)` for a non-negative int.

  function DigitChar(d: nat): (c: char)
    requires d < 10
    ensures '0' <= c <= '9' && c as int - '0' as int == d
  {
    ('0' as int + d) as char
  }

  predicate IsDigitByte(b: byte) {
    '0' as int <= b as int <= '9' as int
  }

  function DigitValue(b: byte): nat
    requires IsDigitByte(b)
  {
    b as int - '0' as int
  }

  /** `str(n)`: the shortest decimal numeral of `n`. */
  function Decimal(n: nat): string
    decreases n
  {
    if n < 10 then [DigitChar(n)] else Decimal(n / 10) + [DigitChar(n % 10)]
  }

  /** `str(n)` is a non-empty run of digits without a leading zero. */
  lemma {:induction false} DecimalShape(n: nat)
    ensures 1 <= |Decimal(n)|
    ensures forall i | 0 <= i < |Decimal(n)| :: '0' <= Decimal(n)[i] <= '9'
    ensures |Decimal(n)| > 1 ==> Decimal(n)[0] != '0'
    decreases n
  {
    if n >= 10 {
      DecimalShape(n / 10);
    }
  }

  /** The value of a run of ASCII digits, most significant first. */
  function DigitsValue(ds: seq<byte>): nat
    requires forall i | 0 <= i < |ds| :: IsDigitByte(ds[i])
    decreases |ds|
  {
    if ds == [] then 0
    else DigitsValue(ds[..|ds| - 1]) * 10 + DigitValue(ds[|ds| - 1])
  }

  /** Reads a non-empty run of ASCII digits as a number; anything else is `None`. */
  function ParseDecimal(bs: seq<byte>): Option<nat> {
    if |bs| > 0 && forall i | 0 <= i < |bs| :: IsDigitByte(bs[i]) then Some(DigitsValue(bs)) else None
  }

  lemma {:induction false} DecimalBytesAreDigits(n: nat)
    ensures forall i | 0 <= i < |Latin1(Decimal(n))| :: IsDigitByte(Latin1(Decimal(n))[i])
  {
    DecimalShape(n);
  }

  /** The digits of `str(n)`, read most significant first, have value `n`. */
  lemma {:induction false} DecimalValue(n: nat)
    ensures forall i | 0 <= i < |Latin1(Decimal(n))| :: IsDigitByte(Latin1(Decimal(n))[i])
    ensures DigitsValue(Latin1(Decimal(n))) == n
    decreases n
  {
    DecimalBytesAreDigits(n);
    if n >= 10 {
      var ds := Latin1(Decimal(n));
      var high := Latin1(Decimal(n / 10));
      var low := Latin1([DigitChar(n % 10)]);
      DecimalValue(n / 10);
      Latin1Append(Decimal(n / 10), [DigitChar(n % 10)]);
      assert ds == high + low;
      assert ds[..|ds| - 1] == high;
      assert DigitValue(ds[|ds| - 1]) == n % 10;
    }
  }

  /** Reading back `str(n)` gives `n`. */
  lemma {:induction false} DecimalRoundTrip(n: nat)
    ensures ParseDecimal(Latin1(Decimal(n))) == Some(n)
  {
    DecimalValue(n);
    DecimalShape(n);
  }

  // ---------------------------------------------------------------------
  // UTF-8, as `str.encode("utf-8")` produces it (RFC 3629, section 3).

  const CONT := 0x80   // continuation byte 10xxxxxx

  function EncodeChar(c: char): (r: seq<byte>)
    ensures 1 <= |r| <= 4
    ensures |r| == 1 <==> c as int < 0x80
  {
    var cp := c as int;
    if cp < 0x80 then [cp as byte]
    else if cp < 0x800 then [(0xC0 + cp / 64) as byte, (CONT + cp % 64) as byte]
    else if cp < 0x10000 then
      [(0xE0 + cp / 4096) as byte, (CONT + cp / 64 % 64) as byte, (CONT + cp % 64) as byte]
    else
      [(0xF0 + cp / 262144) as byte, (CONT + cp / 4096 % 64) as byte,
       (CONT + cp / 64 % 64) as byte, (CONT + cp % 64) as byte]
  }

  function Utf8(s: string): (r: seq<byte>)
    ensures |s| <= |r| <= 4 * |s|
    decreases |s|
  {
    if s == [] then [] else EncodeChar(s[0]) + Utf8(s[1..])
  }

  predicate IsCont(b: byte) { 0x80 <= b < 0xC0 }

  /** The six value bits of a continuation byte. */
  function ContBits(b: byte): int { b as int - CONT }

  function ToChar(cp: int): Option<char> {
    if 0 <= cp < 0xD800 || 0xE000 <= cp < 0x11_0000 then Some(cp as char) else None
  }

  /** Decodes one character at the start of `bs`, returning it with its length. */
  function DecodeChar(bs: seq<byte>): (r: Option<(char, nat)>)
    ensures r.Some? ==> 1 <= r.value.1 <= |bs|
  {
    if |bs| == 0 then None
    else if bs[0] < 0x80 then Some((bs[0] as int as char, 1))
    else if 0xC2 <= bs[0] < 0xE0 && |bs| >= 2 && IsCont(bs[1]) then
      match ToChar((bs[0] as int - 0xC0) * 64 + ContBits(bs[1]))
      case Some(c) => Some((c, 2))
      case None => None
    else if 0xE0 <= bs[0] < 0xF0 && |bs| >= 3 && IsCont(bs[1]) && IsCont(bs[2]) then
      var cp := (bs[0] as int - 0xE0) * 4096 + ContBits(bs[1]) * 64 + ContBits(bs[2]);
      if cp < 0x800 then None
      else match ToChar(cp)
        case Some(c) => Some((c, 3))
        case None => None
    else if 0xF0 <= bs[0] < 0xF5 && |bs| >= 4 && IsCont(bs[1]) && IsCont(bs[2]) && IsCont(bs[3]) then
      var cp := (bs[0] as int - 0xF0) * 262144 + ContBits(bs[1]) * 4096 + ContBits(bs[2]) * 64 + ContBits(bs[3]);
      if cp < 0x10000 then None
      else match ToChar(cp)
        case Some(c) => Some((c, 4))
        case None => None
    else None
  }

  /** Strict UTF-8 decoding; `None` on a malformed or overlong sequence. */
  function DecodeUtf8(bs: seq<byte>): (r: Option<string>)
    decreases |bs|
  {
    if bs == [] then Some([])
    else match DecodeChar(bs)
      case None => None
      case Some((c, n)) =>
        match DecodeUtf8(bs[n..])
        case None => None
        case Some(rest) => Some([c] + rest)
  }

  lemma {:induction false} EncodeCharRoundTrip(c: char, rest: seq<byte>)
    ensures DecodeChar(EncodeChar(c) + rest) == Some((c, |EncodeChar(c)|))
  {
    var cp := c as int;
    var bs := EncodeChar(c) + rest;
    if cp < 0x80 {
    } else if cp < 0x800 {
      assert bs[0] as int - 0xC0 == cp / 64 && 0xC2 <= bs[0] < 0xE0;
      assert ContBits(bs[1]) == cp % 64;
      assert (bs[0] as int - 0xC0) * 64 + ContBits(bs[1]) == cp;
    } else if cp < 0x10000 {
      assert bs[0] as int - 0xE0 == cp / 4096;
      assert ContBits(bs[1]) == cp / 64 % 64 && ContBits(bs[2]) == cp % 64;
      Split3(cp);
    } else {
      assert bs[0] as int - 0xF0 == cp / 262144 && bs[0] < 0xF5;
      assert ContBits(bs[1]) == cp / 4096 % 64;
      assert ContBits(bs[2]) == cp / 64 % 64 && ContBits(bs[3]) == cp % 64;
      Split4(cp);
    }
  }

  lemma {:induction false} Split3(cp: nat)
    ensures (cp / 4096) * 4096 + (cp / 64 % 64) * 64 + cp % 64 == cp
  {
  }

  lemma {:induction false} Split4(cp: nat)
    ensures (cp / 262144) * 262144 + (cp / 4096 % 64) * 4096 + (cp / 64 % 64) * 64 + cp % 64 == cp
  {
    var q := cp / 64;
    var q2 := q / 64;
    assert q * 64 + cp % 64 == cp;
    assert q2 * 64 + q % 64 == q;
    assert (q2 / 64) * 64 + q2 % 64 == q2;
    assert cp / 4096 == q2;
    assert cp / 262144 == q2 / 64;
  }

  /** The page bytes sent decode back to the page text. */
  lemma {:induction false} Utf8RoundTrip(s: string)
    ensures DecodeUtf8(Utf8(s)) == Some(s)
    decreases |s|
  {
    if s != [] {
      var e := EncodeChar(s[0]);
      EncodeCharRoundTrip(s[0], Utf8(s[1..]));
      assert (e + Utf8(s[1..]))[|e|..] == Utf8(s[1..]);
      Utf8RoundTrip(s[1..]);
      assert [s[0]] + s[1..] == s;
    }
  }
}
