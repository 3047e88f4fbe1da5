/**
  The base-32 codec of the one-time-password engine: base32Decode of pkg/totp/totp.go.
  Secrets are written over the alphabet of section 6 of RFC 4648, unpadded; decoding
  upper-cases the text, turns every symbol into 5 bits, most significant first, and cuts the
  bit stream into bytes, dropping the fewer than 8 bits left at the end.

  The source has no encoder. Encode below is the unpadded RFC 4648 encoding, written as an
  independent reference so that the decoder can be checked against it (DecodeEncode).
 */
module Base32 {
  import opened Wrappers
  import opened Numerals
  import opened Strings

  /** The symbol for a 5-bit value: 'A' to 'Z' for 0 to 25, '2' to '7' for 26 to 31. */
  function Symbol(v: nat): (c: char)
    requires v < 32
    ensures SymbolValue(c) == v
  {
    if v < 26 then ('A' as int + v) as char else ('2' as int + v - 26) as char
  }

  /** The value of a symbol, or -1 for a character outside the alphabet. */
  function SymbolValue(c: char): int {
    if 'A' <= c <= 'Z' then c as int - 'A' as int
    else if '2' <= c <= '7' then c as int - '2' as int + 26
    else -1
  }

  /** The alphabet of section 6 of RFC 4648, symbol v at index v. */
  const Alphabet: string := seq(32, v requires 0 <= v < 32 => Symbol(v))

  lemma AlphabetIsRfc4648()
    ensures Alphabet == "ABCDEFGHIJKLMNOPQRSTUVWXYZ234567"
  {
  }

  /** strings.IndexRune over the alphabet is the value of the symbol. */
  lemma IndexInAlphabet(c: char)
    ensures IndexRune(Alphabet, c) == SymbolValue(c)
  {
    var k := SymbolValue(c);
    if k >= 0 {
      assert Alphabet[k] == c;
    }
  }

  /** strings.IndexRune(base32Chars, c): the value of the symbol c, or -1. */
  method AlphabetIndex(c: char) returns (idx: int)
    ensures idx == SymbolValue(c)
  {
    idx := IndexRune(Alphabet, c);
    IndexInAlphabet(c);
  }

  /** unicode.ToUpper, as far as membership in the alphabet is concerned: ASCII letters are
      upper-cased, and the two non-ASCII runes whose upper case is an ASCII letter, U+0131
      (dotless i) and U+017F (long s), become 'I' and 'S'. Every other rune is left as it is:
      neither it nor its real upper case is a symbol of the alphabet. */
  function ToUpper(c: char): char {
    if 'a' <= c <= 'z' then (c as int - 32) as char
    else if c == '\U{0131}' then 'I'
    else if c == '\U{017F}' then 'S'
    else c
  }

  /** strings.ToUpper, rune by rune. */
  function Upper(s: string): (u: string)
    ensures |u| == |s|
    ensures forall i :: 0 <= i < |s| ==> u[i] == ToUpper(s[i])
  {
    seq(|s|, i requires 0 <= i < |s| => ToUpper(s[i]))
  }

  /** The first n characters of s are symbols of the alphabet. */
  predicate SymbolsUpTo(s: string, n: nat)
    requires n <= |s|
  {
    forall k :: 0 <= k < n ==> SymbolValue(s[k]) >= 0
  }

  predicate IsBase32(s: string) {
    SymbolsUpTo(s, |s|)
  }

  /** The bit buffer after the first n symbols of s: five binary digits per symbol, in
      order, each the value of its symbol, most significant bit first. */
  function PrefixBits(s: string, n: nat): (bits: string)
    requires n <= |s| && SymbolsUpTo(s, n)
    ensures |bits| == 5 * n && IsBinary(bits)
  {
    if n == 0 then [] else PrefixBits(s, n - 1) + Binary(SymbolValue(s[n - 1]), 5)
  }

  function BitString(s: string): (bits: string)
    requires IsBase32(s)
    ensures |bits| == 5 * |s| && IsBinary(bits)
  {
    PrefixBits(s, |s|)
  }

  /** The bits of a prefix do not depend on what follows it. */
  lemma {:induction false} PrefixBitsAppend(s: string, t: string, n: nat)
    requires n <= |s| && SymbolsUpTo(s, n)
    ensures SymbolsUpTo(s + t, n) && PrefixBits(s + t, n) == PrefixBits(s, n)
  {
    assert forall k :: 0 <= k < n ==> (s + t)[k] == s[k];
    if n > 0 {
      PrefixBitsAppend(s, t, n - 1);
    }
  }

  /** Bytes cut from the front of a bit string, eight bits at a time, the rest dropped. */
  function Pack(bits: string): (bytes: seq<byte>)
    requires IsBinary(bits)
    ensures |bytes| == |bits| / 8
  {
    if |bits| < 8 then []
    else
      assert IsBinary(bits[..8]) && IsBinary(bits[8..]);
      [ParseBinary(bits[..8]) as byte] + Pack(bits[8..])
  }

  /** What base32Decode returns: the key, or None for its "invalid base32 character" error. */
  function Decode(data: string): Option<seq<byte>> {
    var up := Upper(data);
    if IsBase32(up) then Some(Pack(BitString(up))) else None
  }

  /** base32Decode: upper-case the text, turn it into a buffer of binary digits, and consume
      the buffer eight digits at a time. */
  method Base32Decode(data: string) returns (r: Option<seq<byte>>)
    ensures r == Decode(data)
  {
    var up := Upper(data);
    var buffer := FillBitBuffer(up);
    if buffer.None? {
      return None;
    }
    var result := ConsumeBitBuffer(buffer.value);
    return Some(result);
  }

  /** The first loop of base32Decode: the five binary digits of each symbol's index in the
      alphabet, appended in order; None at the first character outside the alphabet. */
  method FillBitBuffer(up: string) returns (r: Option<string>)
    ensures r == if IsBase32(up) then Some(BitString(up)) else None
  {
    var bitBuffer: string := "";
    for i := 0 to |up|
      invariant SymbolsUpTo(up, i) && bitBuffer == PrefixBits(up, i)
    {
      var idx := AlphabetIndex(up[i]);
      if idx == -1 {
        return None;
      }
      var bits := SymbolBits(idx);
      bitBuffer := bitBuffer + bits;
    }
    return Some(bitBuffer);
  }

  /** The second loop of base32Decode: one byte per leading eight binary digits, read with
      strconv.ParseInt(_, 2, 64), whose error branch a binary buffer never takes. */
  method ConsumeBitBuffer(bits: string) returns (result: seq<byte>)
    requires IsBinary(bits)
    ensures result == Pack(bits)
  {
    var bitBuffer := bits;
    result := [];
    while |bitBuffer| >= 8
      invariant IsBinary(bitBuffer)
      invariant result + Pack(bitBuffer) == Pack(bits)
      decreases |bitBuffer|
    {
      var byteStr := bitBuffer[..8];
      bitBuffer := bitBuffer[8..];
      var val := ParseBinary(byteStr);
      assert result + [val as byte] + Pack(bitBuffer) == result + ([val as byte] + Pack(bitBuffer));
      result := result + [val as byte];
    }
  }

  /** The binary numeral of a symbol's value, left-padded with '0' to five digits. */
  method SymbolBits(idx: nat) returns (bits: string)
    requires idx < 32
    ensures bits == Binary(idx, 5)
  {
    bits := FormatBinary(idx);
    FormatBinaryWidth(idx, 5);
    while |bits| < 5
      invariant IsBinary(bits) && ParseBinary(bits) == idx && |bits| <= 5
    {
      LeadingZeroBinary(bits);
      bits := "0" + bits;
    }
    BinaryOfParse(bits);
  }

  // ------------------------------------------------------------ properties of Decode

  /** Decoding fails exactly when some character, upper-cased, is not a symbol; '=' padding
      is such a character. */
  lemma DecodeFailsIff(data: string)
    ensures Decode(data).None? <==>
      exists i :: 0 <= i < |data| && SymbolValue(ToUpper(data[i])) < 0
  {
    var up := Upper(data);
    forall i | 0 <= i < |data| ensures IndexRune(Alphabet, up[i]) == SymbolValue(ToUpper(data[i])) {
      IndexInAlphabet(up[i]);
    }
  }

  /** Five bits per symbol, eight per byte: n symbols decode to floor(5n/8) bytes. */
  lemma DecodeLength(data: string)
    requires Decode(data).Some?
    ensures |Decode(data).value| == 5 * |data| / 8
  {
  }

  /** Case does not matter: lower-case symbols decode as their upper-case forms. */
  lemma DecodeLowerCase(data: string)
    ensures Decode(Lower(data)) == Decode(data)
  {
    assert Upper(Lower(data)) == Upper(data);
  }

  /** ASCII lower-casing, rune by rune. */
  function Lower(s: string): (l: string)
    ensures |l| == |s|
  {
    seq(|s|, i requires 0 <= i < |s| => AsciiLower(s[i]))
  }

  /** Symbol i of the text fills bits 5i to 5i+4 of the buffer, most significant first. */
  lemma {:induction false} PrefixBitsSymbol(s: string, n: nat, i: nat)
    requires n <= |s| && SymbolsUpTo(s, n) && i < n
    ensures PrefixBits(s, n)[5 * i..5 * i + 5] == Binary(SymbolValue(s[i]), 5)
  {
    var front := PrefixBits(s, n - 1);
    var last := Binary(SymbolValue(s[n - 1]), 5);
    if i < n - 1 {
      PrefixBitsSymbol(s, n - 1, i);
      assert (front + last)[5 * i..5 * i + 5] == front[5 * i..5 * i + 5];
    } else {
      assert (front + last)[|front|..] == last;
    }
  }

  lemma BitStringSymbol(s: string, i: nat)
    requires IsBase32(s) && i < |s|
    ensures BitString(s)[5 * i..5 * i + 5] == Binary(SymbolValue(s[i]), 5)
  {
    PrefixBitsSymbol(s, |s|, i);
  }

  /** Byte j of a packed stream is the value of bits 8j to 8j+7. */
  lemma {:induction false} PackByte(bits: string, j: nat)
    requires IsBinary(bits) && j < |bits| / 8
    ensures IsBinary(bits[8 * j..8 * j + 8])
    ensures Pack(bits)[j] == ParseBinary(bits[8 * j..8 * j + 8])
  {
    var rest := bits[8..];
    assert Pack(bits) == [ParseBinary(bits[..8]) as byte] + Pack(rest);
    if j > 0 {
      PackByte(rest, j - 1);
      assert rest[8 * (j - 1)..8 * (j - 1) + 8] == bits[8 * j..8 * j + 8];
    } else {
      assert bits[..8] == bits[0..8];
    }
  }

  /** Byte j of the key holds bits 8j to 8j+7 of the symbols' bit stream. */
  lemma DecodeByte(data: string, j: nat)
    requires Decode(data).Some? && j < |Decode(data).value|
    ensures IsBase32(Upper(data))
    ensures Binary(Decode(data).value[j], 8) == BitString(Upper(data))[8 * j..8 * j + 8]
  {
    var bits := BitString(Upper(data));
    PackByte(bits, j);
    BinaryOfParse(bits[8 * j..8 * j + 8]);
  }

  // ------------------------------------------------------------ the reference encoder

  /** Eight binary digits per byte, most significant first. */
  function ByteBits(b: seq<byte>): (bits: string)
    ensures |bits| == 8 * |b| && IsBinary(bits)
  {
    if b == [] then [] else Binary(b[0], 8) + ByteBits(b[1..])
  }

  /** One symbol per five bits. */
  function Symbols(bits: string): (s: string)
    requires IsBinary(bits) && |bits| % 5 == 0
    ensures |s| == |bits| / 5 && IsBase32(s)
  {
    if bits == [] then []
    else
      var init := bits[..|bits| - 5];
      var v := ParseBinary(bits[|bits| - 5..]);
      Symbols(init) + [Symbol(v)]
  }

  /** Unpadded base-32 encoding: the bits of the bytes, completed with zero bits to a whole
      number of symbols. */
  function Encode(b: seq<byte>): (s: string)
    ensures |s| == (8 * |b| + 4) / 5 && IsBase32(s)
  {
    var bits := ByteBits(b);
    Symbols(bits + Zeros(PadLength(|bits|)))
  }

  /** The number of zero bits that complete n bits to a whole number of symbols. */
  function PadLength(n: nat): (k: nat)
    ensures k < 5 && (n + k) % 5 == 0
  {
    (5 - n % 5) % 5
  }

  /** One more symbol appends its five bits to the buffer. */
  lemma BitStringSnoc(s: string, c: char)
    requires IsBase32(s) && SymbolValue(c) >= 0
    ensures IsBase32(s + [c])
    ensures BitString(s + [c]) == BitString(s) + Binary(SymbolValue(c), 5)
  {
    PrefixBitsAppend(s, [c], |s|);
  }

  lemma {:induction false} BitStringSymbols(bits: string)
    requires IsBinary(bits) && |bits| % 5 == 0
    ensures BitString(Symbols(bits)) == bits
  {
    if bits != [] {
      var init := bits[..|bits| - 5];
      var last := bits[|bits| - 5..];
      var c := Symbol(ParseBinary(last));
      BitStringSymbols(init);
      BitStringSnoc(Symbols(init), c);
      BinaryOfParse(last);
      assert bits == init + last;
    }
  }

  lemma {:induction false} PackByteBits(b: seq<byte>, tail: string)
    requires IsBinary(tail) && |tail| < 8
    ensures IsBinary(ByteBits(b) + tail) && Pack(ByteBits(b) + tail) == b
  {
    var bits := ByteBits(b) + tail;
    if b != [] {
      PackByteBits(b[1..], tail);
      assert bits[..8] == Binary(b[0], 8);
      assert bits[8..] == ByteBits(b[1..]) + tail;
    }
  }

  /** Encoded text is already upper case. */
  lemma UpperOfBase32(s: string)
    requires IsBase32(s)
    ensures Upper(s) == s
  {
    forall i | 0 <= i < |s| ensures ToUpper(s[i]) == s[i] {
      IndexInAlphabet(s[i]);
    }
  }

  /** Decoding text already in upper case packs its bit buffer. */
  lemma DecodeOfBase32(s: string)
    requires IsBase32(s)
    ensures Decode(s) == Some(Pack(BitString(s)))
  {
    UpperOfBase32(s);
  }

  /** The bit buffer of an encoding is the bytes' bits followed by the zero padding. */
  lemma BitStringOfEncode(b: seq<byte>)
    ensures BitString(Encode(b)) == ByteBits(b) + Zeros(PadLength(|ByteBits(b)|))
  {
    var bits := ByteBits(b);
    BitStringSymbols(bits + Zeros(PadLength(|bits|)));
  }

  /** Decoding inverts the unpadded encoding of every byte string. */
  lemma DecodeEncode(b: seq<byte>)
    ensures Decode(Encode(b)) == Some(b)
  {
    DecodeOfBase32(Encode(b));
    BitStringOfEncode(b);
    PackByteBits(b, Zeros(PadLength(|ByteBits(b)|)));
  }
}
