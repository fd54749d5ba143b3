/** Percent-encoding of query values, its inverse, and the query string in between
    (crates/auth/src/aws_iam.rs, crates/auth/src/oauth.rs, crates/cli/src/deep_link.rs). */
module UrlCoding {
  import opened Values
  import opened Text

  type Byte = x: int | 0 <= x < 256

  // ----- UTF-8 -----

  /** The bytes of a character. */
  function Utf8(c: char): (bytes: seq<Byte>)
    ensures bytes != []
  {
    var n := c as int;
    if n < 0x80 then [n]
    else if n < 0x800 then [0xC0 + n / 0x40, 0x80 + n % 0x40]
    else if n < 0x1_0000 then [0xE0 + n / 0x1000, 0x80 + n / 0x40 % 0x40, 0x80 + n % 0x40]
    else [0xF0 + n / 0x4_0000, 0x80 + n / 0x1000 % 0x40, 0x80 + n / 0x40 % 0x40, 0x80 + n % 0x40]
  }

  function Utf8All(s: string): seq<Byte> {
    if s == "" then [] else Utf8(s[0]) + Utf8All(s[1..])
  }

  /** The number of bytes of a character, from its first byte. */
  function Width(first: Byte): nat {
    if first < 0x80 then 1 else if first < 0xE0 then 2 else if first < 0xF0 then 3 else 4
  }

  function FromUtf8(bytes: seq<Byte>): int
    requires bytes != [] && |bytes| == Width(bytes[0])
  {
    if |bytes| == 1 then bytes[0]
    else if |bytes| == 2 then (bytes[0] as int - 0xC0) * 0x40 + (bytes[1] as int - 0x80)
    else if |bytes| == 3 then
      (bytes[0] as int - 0xE0) * 0x1000 + (bytes[1] as int - 0x80) * 0x40 + (bytes[2] as int - 0x80)
    else
      (bytes[0] as int - 0xF0) * 0x4_0000 + (bytes[1] as int - 0x80) * 0x1000 +
      (bytes[2] as int - 0x80) * 0x40 + (bytes[3] as int - 0x80)
  }

  lemma Utf8Decodes(c: char)
    ensures |Utf8(c)| == Width(Utf8(c)[0])
    ensures FromUtf8(Utf8(c)) == c as int
  {
    var n := c as int;
    assert n == n / 0x40 * 0x40 + n % 0x40;
    assert n / 0x40 == n / 0x40 / 0x40 * 0x40 + n / 0x40 % 0x40 && n / 0x40 / 0x40 == n / 0x1000;
    assert n / 0x1000 == n / 0x1000 / 0x40 * 0x40 + n / 0x1000 % 0x40 && n / 0x1000 / 0x40 == n / 0x4_0000;
  }

  /** Different texts have different bytes, so decoding valid bytes as text is unambiguous. */
  lemma {:induction false} Utf8Injective(s: string, t: string)
    ensures Utf8All(s) == Utf8All(t) <==> s == t
  {
    if Utf8All(s) == Utf8All(t) && s != "" && t != "" {
      var bytes, a, b := Utf8All(s), Utf8(s[0]), Utf8(t[0]);
      Utf8Decodes(s[0]);
      Utf8Decodes(t[0]);
      assert bytes[0] == a[0] && bytes[0] == b[0];
      assert a == bytes[..Width(bytes[0])] && b == bytes[..Width(bytes[0])];
      assert Utf8All(s[1..]) == bytes[|a|..] && Utf8All(t[1..]) == bytes[|b|..];
      Utf8Injective(s[1..], t[1..]);
      assert s == [s[0]] + s[1..] && t == [t[0]] + t[1..];
    }
  }

  // ----- UTF-8 with errors -----

  const REPLACEMENT: char := '\U{FFFD}'

  function ByteAt(bytes: seq<Byte>, i: nat): Byte {
    if i < |bytes| then bytes[i] else 0
  }

  predicate Continues(b: Byte) {
    0x80 <= b <= 0xBF
  }

  /** The second byte may follow the first: no overlong form, no surrogate, nothing beyond the
      last code point. */
  predicate SecondFits(first: Byte, second: Byte) {
    if first == 0xE0 then 0xA0 <= second <= 0xBF
    else if first == 0xED then 0x80 <= second <= 0x9F
    else if first == 0xF0 then 0x90 <= second <= 0xBF
    else if first == 0xF4 then 0x80 <= second <= 0x8F
    else 0xC2 <= first < 0xF4 && Continues(second)
  }

  /** The bytes at the front that are a character, or the longest start of one that breaks off
      there, and which of the two it is. */
  function Chunk(bytes: seq<Byte>): (r: (nat, bool))
    requires bytes != []
    ensures 0 < r.0 <= |bytes| && (r.1 ==> r.0 == Width(bytes[0]))
  {
    var b := bytes[0];
    if b < 0x80 then (1, true)
    else if !SecondFits(b, ByteAt(bytes, 1)) then (1, false)
    else if b < 0xE0 then (2, true)
    else if !Continues(ByteAt(bytes, 2)) then (2, false)
    else if b < 0xF0 then (3, true)
    else if !Continues(ByteAt(bytes, 3)) then (3, false)
    else (4, true)
  }

  lemma ChunkIsScalar(bytes: seq<Byte>)
    requires bytes != [] && Chunk(bytes).1
    ensures var n := FromUtf8(bytes[..Chunk(bytes).0]);
            0 <= n < 0xD800 || 0xE000 <= n < 0x11_0000
  {
  }

  /** A library conversion: every broken chunk becomes one replacement character. */
  function Lossy(bytes: seq<Byte>): string {
    if bytes == [] then ""
    else
      [FirstChar(bytes)] + Lossy(bytes[Chunk(bytes).0..])
  }

  function FirstChar(bytes: seq<Byte>): char
    requires bytes != []
  {
    if Chunk(bytes).1 then
      ChunkIsScalar(bytes);
      FromUtf8(bytes[..Chunk(bytes).0]) as char
    else REPLACEMENT
  }

  predicate ValidUtf8(bytes: seq<Byte>) {
    bytes == [] || (Chunk(bytes).1 && ValidUtf8(bytes[Chunk(bytes).0..]))
  }

  lemma ChunkOfChar(c: char, rest: seq<Byte>)
    ensures Chunk(Utf8(c) + rest) == (|Utf8(c)|, true)
  {
    Utf8Decodes(c);
  }

  /** The conversion gives back the text that the bytes stand for. */
  lemma {:induction false} LossyOfText(s: string)
    ensures Lossy(Utf8All(s)) == s && ValidUtf8(Utf8All(s))
  {
    if s != "" {
      var rest := Utf8All(s[1..]);
      var bytes := Utf8(s[0]) + rest;
      ChunkOfChar(s[0], rest);
      Utf8Decodes(s[0]);
      assert bytes[..|Utf8(s[0])|] == Utf8(s[0]) && bytes[|Utf8(s[0])|..] == rest;
      LossyOfText(s[1..]);
      assert s == [s[0]] + s[1..];
    }
  }

  lemma TwoBytes(a: Byte, b: Byte, n: nat)
    requires 0xC2 <= a < 0xE0 && Continues(b) && n == (a as int - 0xC0) * 0x40 + (b as int - 0x80)
    ensures n < 0xD800 && Utf8(n as char) == [a, b]
  {
    assert n / 0x40 == a as int - 0xC0 && n % 0x40 == b as int - 0x80;
  }

  lemma ThreeBytes(a: Byte, b: Byte, c: Byte, n: nat)
    requires 0xE0 <= a < 0xF0 && SecondFits(a, b) && Continues(c)
    requires n == (a as int - 0xE0) * 0x1000 + (b as int - 0x80) * 0x40 + (c as int - 0x80)
    ensures (n < 0xD800 || 0xE000 <= n < 0x11_0000) && Utf8(n as char) == [a, b, c]
  {
    assert 0x800 <= n < 0x1_0000;
    assert n % 0x40 == c as int - 0x80 && n / 0x40 == (a as int - 0xE0) * 0x40 + (b as int - 0x80);
    assert n / 0x40 % 0x40 == b as int - 0x80 && n / 0x1000 == a as int - 0xE0;
  }

  lemma FourBytes(a: Byte, b: Byte, c: Byte, d: Byte, n: nat)
    requires 0xF0 <= a && SecondFits(a, b) && Continues(c) && Continues(d)
    requires n == (a as int - 0xF0) * 0x4_0000 + (b as int - 0x80) * 0x1000 +
                  (c as int - 0x80) * 0x40 + (d as int - 0x80)
    ensures 0x1_0000 <= n < 0x11_0000 && Utf8(n as char) == [a, b, c, d]
  {
    var top, high, low := a as int - 0xF0, b as int - 0x80, c as int - 0x80;
    SixBits(n, (top * 0x40 + high) * 0x40 + low, d as int - 0x80);
    SixBits(n / 0x40, top * 0x40 + high, low);
    SixBits(n / 0x40 / 0x40, top, high);
    Shifts(n);
  }

  lemma SixBits(n: nat, high: nat, low: nat)
    requires n == high * 0x40 + low && low < 0x40
    ensures n / 0x40 == high && n % 0x40 == low
  {
  }

  lemma Shifts(n: nat)
    ensures n / 0x1000 == n / 0x40 / 0x40 && n / 0x4_0000 == n / 0x40 / 0x40 / 0x40
  {
  }

  /** A whole chunk is what its character encodes to. */
  lemma CharOfChunk(bytes: seq<Byte>)
    requires bytes != [] && Chunk(bytes).1
    ensures Utf8(FirstChar(bytes)) == bytes[..Chunk(bytes).0]
  {
    var chunk := bytes[..Chunk(bytes).0];
    ChunkIsScalar(bytes);
    var n := FromUtf8(chunk);
    if |chunk| == 2 {
      TwoBytes(chunk[0], chunk[1], n);
    } else if |chunk| == 3 {
      ThreeBytes(chunk[0], chunk[1], chunk[2], n);
    } else if |chunk| == 4 {
      FourBytes(chunk[0], chunk[1], chunk[2], chunk[3], n);
    }
  }

  /** A replacement character does not stand where a chunk is broken. */
  lemma BrokenChunk(bytes: seq<Byte>, rest: seq<Byte>)
    requires bytes != [] && !Chunk(bytes).1
    ensures Utf8(REPLACEMENT) + rest != bytes
  {
    ChunkOfChar(REPLACEMENT, rest);
  }

  /** A whole chunk in front changes nothing. */
  lemma WholeChunk(bytes: seq<Byte>)
    requires bytes != [] && Chunk(bytes).1
    ensures var rest := bytes[Chunk(bytes).0..];
            Utf8All(Lossy(bytes)) == bytes <==> Utf8All(Lossy(rest)) == rest
  {
    var n := Chunk(bytes).0;
    var rest := bytes[n..];
    assert Utf8All(Lossy(bytes)) == bytes[..n] + Utf8All(Lossy(rest)) by {
      LossyFront(bytes);
      CharOfChunk(bytes);
    }
    SameFront(bytes, n, Utf8All(Lossy(rest)));
  }

  /** Nothing is lost if and only if the bytes are valid UTF-8. */
  lemma {:induction false} LossyExactly(bytes: seq<Byte>)
    ensures Utf8All(Lossy(bytes)) == bytes <==> ValidUtf8(bytes)
    decreases |bytes|
  {
    if bytes != [] {
      var rest := bytes[Chunk(bytes).0..];
      if Chunk(bytes).1 {
        WholeChunk(bytes);
        LossyExactly(rest);
      } else {
        LossyFront(bytes);
        BrokenChunk(bytes, Utf8All(Lossy(rest)));
      }
    }
  }

  /** `bytes` start a character, or are one. */
  ghost predicate StartsChar(bytes: seq<Byte>) {
    exists c :: bytes <= Utf8(c)
  }

  /** A broken chunk is the longest front that starts a character, or a single byte. */
  lemma MaximalSubpart(bytes: seq<Byte>)
    requires bytes != [] && !Chunk(bytes).1
    ensures var n := Chunk(bytes).0;
            (n == 1 || StartsChar(bytes[..n])) && (n < |bytes| ==> !StartsChar(bytes[..n + 1]))
    ensures forall c :: !(Utf8(c) <= bytes)
  {
    var n := Chunk(bytes).0;
    if n > 1 {
      CompletedChunk(bytes);
    }
    forall c ensures !(Utf8(c) <= bytes) && (n < |bytes| ==> !(bytes[..n + 1] <= Utf8(c))) {
      ChunkOfChar(c, []);
      assert Utf8(c) + [] == Utf8(c);
      WholeChar(bytes, c);
      if n < |bytes| && bytes[..n + 1] <= Utf8(c) {
        SameChunk(bytes, Utf8(c));
      }
    }
  }

  lemma WholeChar(bytes: seq<Byte>, c: char)
    requires bytes != []
    ensures Utf8(c) <= bytes ==> Chunk(bytes).1
  {
    if Utf8(c) <= bytes {
      ChunkOfChar(c, bytes[|Utf8(c)|..]);
      assert bytes == Utf8(c) + bytes[|Utf8(c)|..];
    }
  }

  /** What makes a chunk broken is in its bytes and the next one. */
  lemma SameChunk(bytes: seq<Byte>, others: seq<Byte>)
    requires bytes != [] && !Chunk(bytes).1 && Chunk(bytes).0 < |bytes|
    requires bytes[..Chunk(bytes).0 + 1] <= others
    ensures !Chunk(others).1
  {
    var n := Chunk(bytes).0;
    forall i | 0 <= i <= n ensures others[i] == bytes[i] {
      assert bytes[..n + 1][i] == bytes[i];
    }
  }

  lemma CompletedChunk(bytes: seq<Byte>)
    requires bytes != [] && !Chunk(bytes).1 && Chunk(bytes).0 > 1
    ensures StartsChar(bytes[..Chunk(bytes).0])
  {
    var n, a, b := Chunk(bytes).0, bytes[0], bytes[1];
    if a < 0xF0 {
      var k := (a as int - 0xE0) * 0x1000 + (b as int - 0x80) * 0x40;
      ThreeBytes(a, b, 0x80, k);
      assert bytes[..n] == [a, b] && [a, b] <= Utf8(k as char);
    } else {
      var c: Byte := if n == 3 then bytes[2] else 0x80;
      var k := (a as int - 0xF0) * 0x4_0000 + (b as int - 0x80) * 0x1000 + (c as int - 0x80) * 0x40;
      FourBytes(a, b, c, 0x80, k);
      assert bytes[..n] <= [a, b, c] && [a, b, c] <= Utf8(k as char);
    }
  }

  lemma SameFront(bytes: seq<Byte>, n: nat, xs: seq<Byte>)
    requires n <= |bytes|
    ensures bytes[..n] + xs == bytes <==> xs == bytes[n..]
  {
    assert (bytes[..n] + xs)[n..] == xs;
    assert bytes[..n] + bytes[n..] == bytes;
  }

  lemma LossyFront(bytes: seq<Byte>)
    requires bytes != []
    ensures Utf8All(Lossy(bytes)) == Utf8(FirstChar(bytes)) + Utf8All(Lossy(bytes[Chunk(bytes).0..]))
  {
    var text := Lossy(bytes);
    assert text[0] == FirstChar(bytes) && text[1..] == Lossy(bytes[Chunk(bytes).0..]);
  }

  // ----- encoding -----

  predicate Unreserved(b: Byte) {
    || 'A' as int <= b <= 'Z' as int || 'a' as int <= b <= 'z' as int || '0' as int <= b <= '9' as int
    || b == '-' as int || b == '_' as int || b == '.' as int || b == '~' as int
  }

  function HexDigit(n: nat): char
    requires n < 16
  {
    if n < 10 then '0' + n as char else 'A' + (n - 10) as char
  }

  function EncodeByte(b: Byte): string {
    if Unreserved(b) then [b as char] else ['%', HexDigit(b / 16), HexDigit(b % 16)]
  }

  function EncodeBytes(bytes: seq<Byte>): string {
    if bytes == [] then "" else EncodeByte(bytes[0]) + EncodeBytes(bytes[1..])
  }

  lemma EncodeStep(bytes: seq<Byte>, i: nat)
    requires i < |bytes|
    ensures EncodeBytes(bytes[i..]) == EncodeByte(bytes[i]) + EncodeBytes(bytes[i + 1..])
  {
    assert bytes[i..][1..] == bytes[i + 1..];
  }

  /** The encoder, byte by byte. */
  method SimpleUrlEncode(s: string) returns (out: string)
    ensures out == EncodeBytes(Utf8All(s))
  {
    var bytes := Utf8All(s);
    out := "";
    assert bytes[0..] == bytes;
    for i := 0 to |bytes|
      invariant EncodeBytes(bytes) == out + EncodeBytes(bytes[i..])
    {
      EncodeStep(bytes, i);
      ghost var one, rest := EncodeByte(bytes[i]), EncodeBytes(bytes[i + 1..]);
      assert out + (one + rest) == (out + one) + rest;
      if Unreserved(bytes[i]) {
        out := out + [bytes[i] as char];
      } else {
        out := out + ['%', HexDigit(bytes[i] / 16), HexDigit(bytes[i] % 16)];
      }
    }
    assert bytes[|bytes|..] == [];
  }

  // ----- decoding -----

  function HexValue(c: char): Option<nat> {
    if '0' <= c <= '9' then Some(c as int - '0' as int)
    else if 'A' <= c <= 'F' then Some(c as int - 'A' as int + 10)
    else if 'a' <= c <= 'f' then Some(c as int - 'a' as int + 10)
    else None
  }

  /** Two characters parsed as a byte in base 16. The parser also takes a plus sign before a
      single digit. */
  function HexPair(h: char, l: char): (b: Option<Byte>)
  {
    match (HexValue(h), HexValue(l))
    case (Some(x), Some(y)) =>
      HexBound(h);
      HexBound(l);
      Some(16 * x + y)
    case (None, Some(y)) =>
      HexBound(l);
      if h == '+' then Some(y) else None
    case _ => None
  }

  lemma HexBound(c: char)
    ensures HexValue(c).Some? ==> HexValue(c).value < 16
  {
  }

  /** The bytes the first character stands for, with its escape if it starts one, and the
      number of characters taken. An escape that is not hexadecimal passes through, and one
      cut off by the end leaves only its percent sign. */
  function DecodeFirst(s: string): (r: (seq<Byte>, nat))
    requires s != ""
    ensures 0 < r.1 <= |s|
  {
    if s[0] != '%' then (Utf8(s[0]), 1)
    else if |s| < 3 then (['%' as int], |s|)
    else
      match HexPair(s[1], s[2])
      case Some(b) => ([b], 3)
      case None => (['%' as int] + Utf8(s[1]) + Utf8(s[2]), 3)
  }

  function DecodeBytes(s: string): seq<Byte> {
    if s == "" then []
    else
      var (bytes, n) := DecodeFirst(s);
      bytes + DecodeBytes(s[n..])
  }

  lemma DecodeStep(s: string, i: nat)
    requires i < |s|
    ensures var (bytes, n) := DecodeFirst(s[i..]);
            i + n <= |s| && DecodeBytes(s[i..]) == bytes + DecodeBytes(s[i + n..])
  {
    var (bytes, n) := DecodeFirst(s[i..]);
    assert s[i..][n..] == s[i + n..];
  }

  /** The characters after a percent sign, taken from the input. */
  method TakeEscape(input: string, i: nat) returns (bytes: seq<Byte>, next: nat)
    requires i < |input| && input[i] == '%'
    ensures next > i && (bytes, next - i) == DecodeFirst(input[i..])
  {
    if i + 2 < |input| {
      var pair := HexPair(input[i + 1], input[i + 2]);
      if pair.Some? {
        bytes := [pair.value];
      } else {
        bytes := ['%' as int] + Utf8(input[i + 1]) + Utf8(input[i + 2]);
      }
      next := i + 3;
    } else {
      bytes, next := ['%' as int], |input|;
    }
  }

  /** What the bytes of a decoded text are read as. */
  function DecodeText(s: string): string {
    Lossy(DecodeBytes(s))
  }

  method PercentDecode(input: string) returns (text: string)
    ensures text == DecodeText(input)
  {
    var bytes: seq<Byte> := [];
    var i := 0;
    assert input[0..] == input;
    while i < |input|
      invariant 0 <= i <= |input|
      invariant DecodeBytes(input) == bytes + DecodeBytes(input[i..])
    {
      var head, next := TakeFirst(input, i);
      DecodeTaken(input, i, bytes, head, next);
      bytes, i := bytes + head, next;
    }
    assert input[i..] == "" && bytes + [] == bytes;
    text := Lossy(bytes);
  }

  /** A character, or an escape. */
  method TakeFirst(input: string, i: nat) returns (bytes: seq<Byte>, next: nat)
    requires i < |input|
    ensures next > i && (bytes, next - i) == DecodeFirst(input[i..])
  {
    if input[i] == '%' {
      bytes, next := TakeEscape(input, i);
    } else {
      bytes, next := Utf8(input[i]), i + 1;
    }
  }

  lemma DecodeTaken(input: string, i: nat, bytes: seq<Byte>, head: seq<Byte>, next: nat)
    requires i < |input| && next > i && (head, next - i) == DecodeFirst(input[i..])
    ensures next <= |input|
    ensures bytes + DecodeBytes(input[i..]) == (bytes + head) + DecodeBytes(input[next..])
  {
    DecodeStep(input, i);
    var rest := DecodeBytes(input[next..]);
    assert (bytes + head) + rest == bytes + (head + rest);
  }

  lemma DecodeByte(b: Byte, rest: string)
    ensures DecodeBytes(EncodeByte(b) + rest) == [b] + DecodeBytes(rest)
  {
    var s := EncodeByte(b) + rest;
    if Unreserved(b) {
      assert s[1..] == rest;
      assert Utf8(b as char) == [b];
    } else {
      assert s[3..] == rest;
      assert HexPair(s[1], s[2]) == Some(b);
    }
  }

  /** Decoding inverts encoding on every byte string. */
  lemma {:induction false} DecodeEncode(bytes: seq<Byte>)
    ensures DecodeBytes(EncodeBytes(bytes)) == bytes
  {
    if bytes != [] {
      DecodeByte(bytes[0], EncodeBytes(bytes[1..]));
      DecodeEncode(bytes[1..]);
    }
  }

  /** A text comes back from encoding and decoding, and only that text. */
  lemma TextRoundTrip(s: string, t: string)
    ensures DecodeText(EncodeBytes(Utf8All(s))) == s
    ensures DecodeBytes(EncodeBytes(Utf8All(s))) == Utf8All(t) <==> s == t
  {
    DecodeEncode(Utf8All(s));
    LossyOfText(s);
    Utf8Injective(s, t);
  }

  /** A text is lost in decoding, to replacement characters, exactly when its bytes are not
      valid UTF-8; otherwise it decodes to what the bytes say. */
  lemma DecodedExactly(s: string)
    ensures Utf8All(DecodeText(s)) == DecodeBytes(s) <==> ValidUtf8(DecodeBytes(s))
    ensures ValidUtf8(DecodeBytes(s)) <==> exists t :: Utf8All(t) == DecodeBytes(s)
  {
    LossyExactly(DecodeBytes(s));
    if ValidUtf8(DecodeBytes(s)) {
      assert Utf8All(DecodeText(s)) == DecodeBytes(s);
    }
    forall t | Utf8All(t) == DecodeBytes(s) ensures ValidUtf8(DecodeBytes(s)) {
      LossyOfText(t);
    }
  }

  // ----- the alphabets, spelled out -----

  const UPPER := "ABCDEFGHIJKLMNOPQRSTUVWXYZ"
  const LOWER := "abcdefghijklmnopqrstuvwxyz"
  const DIGITS_AND_MARKS := "0123456789-_.~"
  const UPPER_HEX := "0123456789ABCDEF"
  const LOWER_HEX := "0123456789abcdef"

  /** Every byte is written either as itself, when it is one of the characters of section 2.3 of
      RFC 3986, or as a percent sign and its two upper-case hexadecimal digits. */
  lemma EncodedExactly(b: Byte)
    ensures EncodeByte(b) ==
            if b as char in UPPER || b as char in LOWER || b as char in DIGITS_AND_MARKS then [b as char]
            else ['%', UPPER_HEX[b / 16], UPPER_HEX[b % 16]]
  {
    UnreservedListed(b);
    UpperHex(b / 16);
    UpperHex(b % 16);
  }

  lemma UpperListed(c: char)
    ensures 'A' <= c <= 'Z' <==> c in UPPER
  {
    assert |UPPER| == 26 && forall i :: 0 <= i < 26 ==> UPPER[i] as int == 'A' as int + i;
    if 'A' <= c <= 'Z' {
      assert UPPER[c as int - 'A' as int] == c;
    }
  }

  lemma LowerListed(c: char)
    ensures 'a' <= c <= 'z' <==> c in LOWER
  {
    assert |LOWER| == 26 && forall i :: 0 <= i < 26 ==> LOWER[i] as int == 'a' as int + i;
    if 'a' <= c <= 'z' {
      assert LOWER[c as int - 'a' as int] == c;
    }
  }

  lemma OtherListed(c: char)
    ensures '0' <= c <= '9' || c == '-' || c == '_' || c == '.' || c == '~' <==> c in DIGITS_AND_MARKS
  {
    var t := DIGITS_AND_MARKS;
    assert |t| == 14 && forall i :: 0 <= i < 10 ==> t[i] as int == '0' as int + i;
    assert t[10] == '-' && t[11] == '_' && t[12] == '.' && t[13] == '~';
    if '0' <= c <= '9' {
      assert t[c as int - '0' as int] == c;
    }
  }

  lemma UnreservedListed(b: Byte)
    ensures Unreserved(b) <==> b as char in UPPER || b as char in LOWER || b as char in DIGITS_AND_MARKS
  {
    UpperListed(b as char);
    LowerListed(b as char);
    OtherListed(b as char);
  }

  lemma UpperHex(n: nat)
    requires n < 16
    ensures HexDigit(n) == UPPER_HEX[n] && HexValue(UPPER_HEX[n]) == Some(n)
  {
  }

  lemma LowerHex(n: nat)
    requires n < 16
    ensures HexValue(LOWER_HEX[n]) == Some(n)
  {
  }

  /** Escapes of every byte are read in either case, whether the byte needs one or not. */
  lemma EscapesDecode(b: Byte, rest: string)
    ensures DecodeBytes(['%', UPPER_HEX[b / 16], UPPER_HEX[b % 16]] + rest) == [b] + DecodeBytes(rest)
    ensures DecodeBytes(['%', LOWER_HEX[b / 16], LOWER_HEX[b % 16]] + rest) == [b] + DecodeBytes(rest)
  {
    UpperHex(b / 16);
    UpperHex(b % 16);
    LowerHex(b / 16);
    LowerHex(b % 16);
    EscapeDecodes(b, UPPER_HEX[b / 16], UPPER_HEX[b % 16], rest);
    EscapeDecodes(b, LOWER_HEX[b / 16], LOWER_HEX[b % 16], rest);
  }

  /** A plus sign in front of one digit counts as a zero. */
  lemma PlusEscapes(n: nat, rest: string)
    requires n < 16
    ensures DecodeBytes(['%', '+', UPPER_HEX[n]] + rest) == [n] + DecodeBytes(rest)
    ensures DecodeBytes(['%', '+', LOWER_HEX[n]] + rest) == [n] + DecodeBytes(rest)
  {
    UpperHex(n);
    LowerHex(n);
    PlusDecodes(n, UPPER_HEX[n], rest);
    PlusDecodes(n, LOWER_HEX[n], rest);
  }

  lemma PlusDecodes(n: Byte, l: char, rest: string)
    requires HexValue(l) == Some(n)
    ensures DecodeBytes(['%', '+', l] + rest) == [n] + DecodeBytes(rest)
  {
    var s := ['%', '+', l] + rest;
    assert s[3..] == rest;
    assert HexPair('+', l) == Some(n);
  }

  lemma EscapeDecodes(b: Byte, h: char, l: char, rest: string)
    requires HexValue(h) == Some(b / 16) && HexValue(l) == Some(b % 16)
    ensures DecodeBytes(['%', h, l] + rest) == [b] + DecodeBytes(rest)
  {
    var s := ['%', h, l] + rest;
    assert s[3..] == rest;
    assert HexPair(h, l) == Some(b);
  }

  lemma HexListed(c: char)
    ensures HexValue(c).Some? <==> c in UPPER_HEX || c in LOWER_HEX
  {
    if HexValue(c).Some? {
      var n := HexValue(c).value;
      HexBound(c);
      assert UPPER_HEX[n] == c || LOWER_HEX[n] == c;
    }
  }

  lemma LossyStep(c: char, rest: seq<Byte>)
    ensures Lossy(Utf8(c) + rest) == [c] + Lossy(rest)
  {
    var first, all := Utf8(c), Utf8(c) + rest;
    ChunkOfChar(c, rest);
    Utf8Decodes(c);
    assert all[..|first|] == first && all[|first|..] == rest;
  }

  /** Reading goes on behind a text as if it were not there. */
  lemma {:induction false} LossyAfterText(s: string, bytes: seq<Byte>)
    ensures Lossy(Utf8All(s) + bytes) == s + Lossy(bytes)
  {
    if s == "" {
      assert Utf8All(s) + bytes == bytes;
    } else {
      RegroupBytes(Utf8(s[0]), Utf8All(s[1..]), bytes);
      LossyStep(s[0], Utf8All(s[1..]) + bytes);
      LossyAfterText(s[1..], bytes);
      Regroup([s[0]], s[1..], Lossy(bytes));
      assert s == [s[0]] + s[1..];
    }
  }

  lemma RegroupBytes(a: seq<Byte>, b: seq<Byte>, c: seq<Byte>)
    ensures (a + b) + c == a + (b + c)
  {
  }

  /** An escape that is not hexadecimal stays as it is, whatever the characters. */
  lemma MalformedStays(h: char, l: char, rest: string)
    requires !(h in UPPER_HEX || h in LOWER_HEX || h == '+') || !(l in UPPER_HEX || l in LOWER_HEX)
    ensures DecodeText(['%', h, l] + rest) == ['%', h, l] + DecodeText(rest)
  {
    var s := ['%', h, l] + rest;
    assert s[3..] == rest;
    HexListed(h);
    HexListed(l);
    EscapeBytes(h, l);
    LossyAfterText(['%', h, l], DecodeBytes(rest));
  }

  lemma EscapeBytes(h: char, l: char)
    ensures Utf8All(['%', h, l]) == ['%' as int] + Utf8(h) + Utf8(l)
  {
    var text := ['%', h, l];
    assert text[1..] == [h, l] && [h, l][1..] == [l] && [l][1..] == "";
    assert Utf8All([l]) == Utf8(l) + Utf8All("");
    assert Utf8All([h, l]) == Utf8(h) + Utf8All([l]);
    assert Utf8All(text) == Utf8('%') + Utf8All([h, l]);
    assert Utf8('%') == ['%' as int];
  }

  /** Anything but a percent sign stands for itself. */
  lemma OthersStay(c: char, rest: string)
    requires c != '%'
    ensures DecodeText([c] + rest) == [c] + DecodeText(rest)
  {
    assert ([c] + rest)[1..] == rest && [c][1..] == "";
    assert Utf8All([c]) == Utf8(c);
    LossyAfterText([c], DecodeBytes(rest));
  }

  /** An escape cut off by the end leaves its percent sign only. */
  lemma TruncatedIsCut(s: string)
    requires s != "" && s[0] == '%' && |s| < 3
    ensures DecodeText(s) == "%"
  {
    assert s[|s|..] == "" && DecodeBytes(s) == ['%' as int];
    assert Utf8All("%") == ['%' as int] by { assert "%"[1..] == ""; }
    LossyOfText("%");
  }

  /** Text that survives as it is: letters, digits and `-_.~` (section 2.3 of RFC 3986). */
  predicate Plain(s: string) {
    forall i :: 0 <= i < |s| ==> s[i] < '\U{80}' && Unreserved(s[i] as int)
  }

  lemma {:induction false} PlainUnchanged(s: string)
    requires Plain(s)
    ensures EncodeBytes(Utf8All(s)) == s && DecodeBytes(s) == Utf8All(s) && DecodeText(s) == s
  {
    LossyOfText(s);
    if s != "" {
      PlainUnchanged(s[1..]);
      assert Utf8(s[0]) == [s[0] as int];
      assert s == [s[0]] + s[1..];
      assert ([s[0] as int] + Utf8All(s[1..]))[1..] == Utf8All(s[1..]);
    }
  }

  lemma {:induction false} EncodeConcat(xs: seq<Byte>, ys: seq<Byte>)
    ensures EncodeBytes(xs + ys) == EncodeBytes(xs) + EncodeBytes(ys)
  {
    if xs == [] {
      assert xs + ys == ys;
    } else {
      assert (xs + ys)[1..] == xs[1..] + ys;
      EncodeConcat(xs[1..], ys);
    }
  }

  /** The text starts with a character that encodes to itself, or with the escape that its
      byte encodes to. */
  predicate CanonicalFirst(s: string)
    requires s != ""
  {
    if s[0] != '%' then s[0] < '\U{80}' && Unreserved(s[0] as int)
    else |s| >= 3 && HexPair(s[1], s[2]).Some? && EncodeByte(HexPair(s[1], s[2]).value) == s[..3]
  }

  /** Unreserved characters, and upper-case escapes of bytes that need one. */
  predicate Canonical(s: string) {
    s == "" || (CanonicalFirst(s) && Canonical(s[DecodeFirst(s).1..]))
  }

  lemma EscapeFirst(bytes: seq<Byte>)
    requires bytes != [] && !Unreserved(bytes[0])
    ensures |EncodeBytes(bytes)| >= 3
    ensures EncodeBytes(bytes)[..3] == ['%', HexDigit(bytes[0] / 16), HexDigit(bytes[0] % 16)]
  {
  }

  /** A first piece that is not canonical does not come back. */
  lemma NotCanonicalFirst(s: string)
    requires s != "" && !CanonicalFirst(s)
    ensures EncodeBytes(DecodeBytes(s)) != s
  {
    var (bytes, n) := DecodeFirst(s);
    var all := DecodeBytes(s);
    assert all == bytes + DecodeBytes(s[n..]) && all[0] == bytes[0];
    if Unreserved(bytes[0]) {
      assert EncodeBytes(all)[0] == bytes[0] as char;
    } else {
      EscapeFirst(all);
      if s[0] == '%' && |s| >= 3 && HexPair(s[1], s[2]).None? {
        assert HexDigit(2) == '2' && HexDigit(5) == '5';
        assert s[1] != '2' || s[2] != '5';
      }
    }
  }

  /** A canonical first piece comes back, in front of what follows. */
  lemma CanonicalStep(s: string)
    requires s != "" && CanonicalFirst(s)
    ensures var n := DecodeFirst(s).1;
            EncodeBytes(DecodeBytes(s)) == s[..n] + EncodeBytes(DecodeBytes(s[n..]))
  {
    var (bytes, n) := DecodeFirst(s);
    var rest := DecodeBytes(s[n..]);
    EncodeConcat(bytes, rest);
    assert |bytes| == 1 && bytes[1..] == [];
    assert EncodeBytes(bytes) == EncodeByte(bytes[0]) == s[..n];
  }

  /** Encoding inverts decoding on a text if and only if the text is canonical; every other
      text decodes to bytes that encode differently. */
  lemma {:induction false} EncodeDecodeExactly(s: string)
    ensures EncodeBytes(DecodeBytes(s)) == s <==> Canonical(s)
    decreases |s|
  {
    if s != "" {
      if CanonicalFirst(s) {
        var n := DecodeFirst(s).1;
        CanonicalStep(s);
        EncodeDecodeExactly(s[n..]);
        assert s == s[..n] + s[n..];
      } else {
        NotCanonicalFirst(s);
      }
    }
  }

  /** So decoding is injective on canonical texts, and what encoding produces is canonical. */
  lemma DecodingCollides(s: string)
    ensures Canonical(EncodeBytes(DecodeBytes(s))) && DecodeBytes(EncodeBytes(DecodeBytes(s))) == DecodeBytes(s)
    ensures !Canonical(s) <==> exists t :: t != s && Canonical(t) && DecodeBytes(t) == DecodeBytes(s)
  {
    var t := EncodeBytes(DecodeBytes(s));
    DecodeEncode(DecodeBytes(s));
    EncodeDecodeExactly(s);
    EncodeDecodeExactly(t);
    if Canonical(s) {
      forall t | Canonical(t) && DecodeBytes(t) == DecodeBytes(s) ensures t == s {
        EncodeDecodeExactly(t);
      }
    }
  }

  /** An escape with a plus sign decodes like the one without it. */
  lemma PlusDecodesToo()
    ensures DecodeBytes("%+A") == [10] && DecodeBytes("%0A") == [10]
    ensures Canonical("%0A") && !Canonical("%+A")
  {
    assert HexPair('+', 'A') == Some(10) && HexPair('0', 'A') == Some(10);
    assert "%+A"[3..] == "" && "%0A"[3..] == "";
    assert "%+A"[1] == '+' && "%+A"[..3] != "%0A";
    assert EncodeByte(10) == "%0A" && "%0A"[..3] == "%0A";
  }

  // ----- query strings -----

  type Param = (string, string)

  function Pair(p: Param): string {
    p.0 + ['='] + EncodeBytes(Utf8All(p.1))
  }

  function Pairs(params: seq<Param>): (r: seq<string>)
    ensures |r| == |params| && forall i :: 0 <= i < |r| ==> r[i] == Pair(params[i])
  {
    seq(|params|, i requires 0 <= i < |params| => Pair(params[i]))
  }

  function UrlEncodeParams(params: seq<Param>): string {
    Join(Pairs(params), '&')
  }

  /** Key and value of a piece: up to the first equals sign, and what follows. */
  function KeyValue(piece: string): (string, string) {
    match SplitOnce(piece, '=')
    case Some((key, v)) => (key, v)
    case None => (piece, "")
  }

  /** The value of the last piece with a key. */
  function LastValue(pieces: seq<string>, key: string): Option<string> {
    if pieces == [] then None
    else
      var (k, v) := KeyValue(pieces[|pieces| - 1]);
      if k == key then Some(v) else LastValue(pieces[..|pieces| - 1], key)
  }

  /** The piece at `i` has the key, and no later one does. */
  ghost predicate IsLastWith(pieces: seq<string>, key: string, i: nat) {
    i < |pieces| && KeyValue(pieces[i]).0 == key && forall j :: i < j < |pieces| ==> KeyValue(pieces[j]).0 != key
  }

  lemma {:induction false} LastValueExactly(pieces: seq<string>, key: string)
    ensures LastValue(pieces, key).None? <==> forall i :: 0 <= i < |pieces| ==> KeyValue(pieces[i]).0 != key
    ensures forall i: nat :: IsLastWith(pieces, key, i) ==> LastValue(pieces, key) == Some(KeyValue(pieces[i]).1)
  {
    if pieces != [] {
      var front := pieces[..|pieces| - 1];
      LastValueExactly(front, key);
      forall i: nat | IsLastWith(pieces, key, i) && i < |front| ensures IsLastWith(front, key, i) {
      }
    }
  }

  function Query(url: string): Option<string> {
    var parts := Split(url, '?');
    if |parts| > 1 then Some(parts[1]) else None
  }

  /** The query is what stands between the first question mark and the second or the end; a URL
      without a question mark has none. */
  lemma QueryExactly(base: string, query: string, fragment: string)
    requires !Contains(base, '?') && !Contains(query, '?')
    ensures Query(base) == None
    ensures Query(base + ['?'] + query) == Some(query)
    ensures Query(base + ['?'] + (query + ['?'] + fragment)) == Some(query)
  {
    SplitFirst(base, query, '?');
    SplitFirst(query, fragment, '?');
    SplitFirst(base, query + ['?'] + fragment, '?');
  }

  /** A piece is split at its first equals sign; without one it is a key with an empty value. */
  lemma KeyValueExactly(key: string, v: string)
    requires !Contains(key, '=')
    ensures KeyValue(key + ['='] + v) == (key, v) && KeyValue(key) == (key, "")
  {
    SplitOnceFirst(key, v, '=');
    SplitOnceNone(key, '=');
  }

  method ParseCallbackParams(url: string) returns (r: Result<(string, string)>)
    ensures r.Ok? <==> Query(url).Some? &&
                       LastValue(Split(Query(url).value, '&'), "code").Some? &&
                       LastValue(Split(Query(url).value, '&'), "state").Some?
    ensures r.Ok? ==> LastValue(Split(Query(url).value, '&'), "code") == Some(r.value.0) &&
                      LastValue(Split(Query(url).value, '&'), "state") == Some(r.value.1)
  {
    var query := Query(url);
    if query.None? {
      return Err("callback URL has no query string");
    }
    var code: Option<string>, state: Option<string> := None, None;
    var pieces := Split(query.value, '&');
    for i := 0 to |pieces|
      invariant code == LastValue(pieces[..i], "code") && state == LastValue(pieces[..i], "state")
    {
      assert pieces[..i + 1][..i] == pieces[..i];
      var (key, v) := KeyValue(pieces[i]);
      assert |"code"| == 4 && |"state"| == 5;
      if key == "code" {
        code := Some(v);
      } else if key == "state" {
        state := Some(v);
      }
    }
    assert pieces[..|pieces|] == pieces;
    if code.None? {
      return Err("no 'code' parameter in callback URL");
    }
    if state.None? {
      return Err("no 'state' parameter in callback URL");
    }
    return Ok((code.value, state.value));
  }

  /** A key a query can carry: none of the separators. */
  predicate IsKey(key: string) {
    !Contains(key, '?') && !Contains(key, '&') && !Contains(key, '=')
  }

  predicate HasNoSeparator(s: string) {
    forall i :: 0 <= i < |s| ==> s[i] != '?' && s[i] != '&' && s[i] != '='
  }

  lemma {:induction false} EncodedHasNoSeparator(bytes: seq<Byte>)
    ensures HasNoSeparator(EncodeBytes(bytes))
  {
    if bytes != [] {
      EncodedHasNoSeparator(bytes[1..]);
      assert HasNoSeparator(EncodeByte(bytes[0]));
    }
  }

  lemma PairParts(p: Param)
    requires IsKey(p.0)
    ensures KeyValue(Pair(p)) == (p.0, EncodeBytes(Utf8All(p.1)))
    ensures !Contains(Pair(p), '&') && !Contains(Pair(p), '?')
  {
    EncodedHasNoSeparator(Utf8All(p.1));
    SplitOnceFirst(p.0, EncodeBytes(Utf8All(p.1)), '=');
  }

  /** The value of the last parameter with a key. */
  function LastParam(params: seq<Param>, key: string): Option<string> {
    if params == [] then None
    else if params[|params| - 1].0 == key then Some(params[|params| - 1].1)
    else LastParam(params[..|params| - 1], key)
  }

  lemma {:induction false} LastValueOfPairs(params: seq<Param>, key: string)
    requires forall i :: 0 <= i < |params| ==> IsKey(params[i].0)
    ensures LastValue(Pairs(params), key) ==
            match LastParam(params, key)
            case Some(v) => Some(EncodeBytes(Utf8All(v)))
            case None => None
  {
    if params != [] {
      var front, last := params[..|params| - 1], params[|params| - 1];
      assert Pairs(params)[..|params| - 1] == Pairs(front);
      PairParts(last);
      LastValueOfPairs(front, key);
    }
  }

  lemma {:induction false} JoinHasNo(pieces: seq<string>, sep: char, c: char)
    requires sep != c && forall i :: 0 <= i < |pieces| ==> !Contains(pieces[i], c)
    ensures !Contains(Join(pieces, sep), c)
  {
    if |pieces| > 1 {
      JoinHasNo(pieces[1..], sep, c);
    }
  }

  /** Reading back a query built from parameters: for every key, the encoded form of the last
      value given for it. */
  lemma QueryRoundTrip(base: string, params: seq<Param>, key: string)
    requires !Contains(base, '?') && params != []
    requires forall i :: 0 <= i < |params| ==> IsKey(params[i].0)
    ensures var url := base + ['?'] + UrlEncodeParams(params);
            && Query(url) == Some(UrlEncodeParams(params))
            && LastValue(Split(UrlEncodeParams(params), '&'), key) ==
                 match LastParam(params, key)
                 case Some(v) => Some(EncodeBytes(Utf8All(v)))
                 case None => None
  {
    var pairs, query := Pairs(params), UrlEncodeParams(params);
    forall i | 0 <= i < |pairs| ensures !Contains(pairs[i], '&') && !Contains(pairs[i], '?') {
      PairParts(params[i]);
    }
    SplitJoin(pairs, '&');
    JoinHasNo(pairs, '&', '?');
    SplitFirst(base, query, '?');
    SplitFirst(query, "", '?');
    LastValueOfPairs(params, key);
  }

  /** Code and state survive the whole way: encoded into a callback URL, split out of it and
      decoded. */
  lemma CallbackRoundTrip(base: string, code: string, state: string)
    requires !Contains(base, '?')
    ensures var query := UrlEncodeParams([("code", code), ("state", state)]);
            var pieces := Split(query, '&');
            && Query(base + ['?'] + query) == Some(query)
            && LastValue(pieces, "code").Some? && LastValue(pieces, "state").Some?
            && DecodeText(LastValue(pieces, "code").value) == code
            && DecodeText(LastValue(pieces, "state").value) == state
  {
    var params: seq<Param> := [("code", code), ("state", state)];
    CallbackKeys();
    assert |"code"| == 4 && |"state"| == 5;
    assert params[..1] == [("code", code)] && params[..1][..0] == [];
    assert LastParam(params, "state") == Some(state);
    assert LastParam(params, "code") == LastParam(params[..1], "code") == Some(code);
    QueryRoundTrip(base, params, "code");
    QueryRoundTrip(base, params, "state");
    TextRoundTrip(code, code);
    TextRoundTrip(state, state);
  }

  lemma CallbackKeys()
    ensures IsKey("code") && IsKey("state")
  {
  }
}
