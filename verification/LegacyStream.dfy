/**
 The hash and keystream of the two legacy envelopes (packages/security/src/vault-envelope.ts and
 developer-secret-envelope.ts): a 32-bit FNV-1a loop on signed JavaScript integers, printed as hexadecimal, whose
 first two digits become the bytes of a keystream.
 */
module LegacyStream {
  import opened Basics
  import opened Base64
  import opened Utf16

  const TWO_TO_32: int := 0x1_0000_0000
  const OFFSET_BASIS: int := 0x811c9dc5
  const FNV_PRIME: int := 0x01000193

  type Uint32 = h: int | 0 <= h < 0x1_0000_0000

  // ---------------------------------------------------------------------------------------------
  // JavaScript's 32-bit operators on numbers.
  // ---------------------------------------------------------------------------------------------

  /** `x >>> 0`. */
  function ToUint32(x: int): Uint32 {
    x % TWO_TO_32
  }

  /** `x | 0`. */
  function ToInt32(x: int): int {
    if ToUint32(x) >= 0x8000_0000 then ToUint32(x) - TWO_TO_32 else ToUint32(x)
  }

  function PowerOf2(width: nat): nat {
    if width == 0 then 1 else 2 * PowerOf2(width - 1)
  }

  lemma {:induction false} PowersOf2()
    ensures PowerOf2(8) == 0x100 && PowerOf2(32) == TWO_TO_32
  {
    assert PowerOf2(8) == 0x100;
    assert PowerOf2(16) == 0x1_0000;
    assert PowerOf2(24) == 0x100_0000;
  }

  /** Exclusive-or of the low `width` bits, bit by bit. */
  function BitXor(a: nat, b: nat, width: nat): (r: nat)
    ensures r < PowerOf2(width)
  {
    if width == 0 then 0 else 2 * BitXor(a / 2, b / 2, width - 1) + if a % 2 == b % 2 then 0 else 1
  }

  lemma {:induction false} BitXorTwice(a: nat, b: nat, width: nat)
    requires a < PowerOf2(width)
    ensures BitXor(BitXor(a, b, width), b, width) == a
  {
    if width > 0 {
      BitXorTwice(a / 2, b / 2, width - 1);
      var once := BitXor(a, b, width);
      assert once / 2 == BitXor(a / 2, b / 2, width - 1);
    }
  }

  function XorBits(a: Uint32, b: Uint32): Uint32 {
    PowersOf2();
    BitXor(a, b, 32)
  }

  /** `a ^ b`: both operands and the result are signed 32-bit integers. */
  function SignedXor(a: int, b: int): int {
    ToInt32(XorBits(ToUint32(a), ToUint32(b)))
  }

  /** `Math.imul(a, b)`. */
  function Imul(a: int, b: int): int {
    ToInt32(ToUint32(a) * ToUint32(b))
  }

  lemma {:induction false} SignChangesNothing(x: int)
    ensures ToUint32(ToInt32(x)) == ToUint32(x)
  {
    var u := ToUint32(x);
    if u >= 0x8000_0000 {
      assert (u - TWO_TO_32) % TWO_TO_32 == u;
    }
  }

  // ---------------------------------------------------------------------------------------------
  // FNV-1a modulo 2^32.
  // ---------------------------------------------------------------------------------------------

  /** The hash of the first `n` bytes: for each byte, exclusive-or it in and multiply by the prime. */
  function Fnv1a(bytes: seq<Byte>, n: nat): Uint32
    requires n <= |bytes|
  {
    if n == 0 then OFFSET_BASIS else XorBits(Fnv1a(bytes, n - 1), bytes[n - 1]) * FNV_PRIME % TWO_TO_32
  }

  function HexDigit(d: int): char
    requires 0 <= d < 16
  {
    if d < 10 then '0' + d as char else 'a' + (d - 10) as char
  }

  /** `n.toString(16)`. */
  function ToHex(n: nat): (s: string)
    ensures s != ""
  {
    if n < 16 then [HexDigit(n)] else ToHex(n / 16) + [HexDigit(n % 16)]
  }

  function Zeros(n: nat): (s: string)
    ensures |s| == n && forall k :: 0 <= k < n ==> s[k] == '0'
  {
    if n == 0 then "" else Zeros(n - 1) + "0"
  }

  /** `s.padStart(width, "0")`. */
  function PadStart(s: string, width: nat): string {
    if |s| >= width then s else Zeros(width - |s|) + s
  }

  function HashText(bytes: seq<Byte>): string {
    PadStart(ToHex(Fnv1a(bytes, |bytes|)), 8)
  }

  /** The source's loop, whose hash goes negative half of the time. */
  method HashToHex(bytes: seq<Byte>) returns (hex: string)
    ensures hex == HashText(bytes)
  {
    hide ToInt32, XorBits;
    var hash := OFFSET_BASIS;
    for k := 0 to |bytes|
      invariant ToUint32(hash) == Fnv1a(bytes, k)
    {
      hash := SignedXor(hash, bytes[k]);
      SignChangesNothing(XorBits(Fnv1a(bytes, k), bytes[k]));
      assert ToUint32(hash) == XorBits(Fnv1a(bytes, k), bytes[k]);
      SignChangesNothing(ToUint32(hash) * FNV_PRIME);
      hash := Imul(ToUint32(hash), FNV_PRIME);
    }
    hex := PadStart(ToHex(ToUint32(hash)), 8);
  }

  // ---------------------------------------------------------------------------------------------
  // The hash always prints as eight digits, and the first two are its top byte.
  // ---------------------------------------------------------------------------------------------

  /** `n` in exactly `width` digits. */
  function FixedHex(n: nat, width: nat): (s: string)
    ensures |s| == width
  {
    if width == 0 then "" else FixedHex(n / 16, width - 1) + [HexDigit(n % 16)]
  }

  function PowerOf16(width: nat): nat {
    if width == 0 then 1 else 16 * PowerOf16(width - 1)
  }

  lemma {:induction false} FixedZero(width: nat)
    ensures FixedHex(0, width) == Zeros(width)
  {
    if width > 0 { FixedZero(width - 1); }
  }

  /** Padding on the left gives the fixed-width form of any number that fits. */
  lemma {:induction false} PaddedHexIsFixed(n: nat, width: nat)
    requires width > 0 && n < PowerOf16(width)
    ensures PadStart(ToHex(n), width) == FixedHex(n, width)
    decreases width
  {
    if n < 16 {
      FixedZero(width - 1);
    } else {
      PaddedHexIsFixed(n / 16, width - 1);
      assert ToHex(n) == ToHex(n / 16) + [HexDigit(n % 16)];
    }
  }

  predicate IsLowerHex(s: string) {
    forall k :: 0 <= k < |s| ==> '0' <= s[k] <= '9' || 'a' <= s[k] <= 'f'
  }

  lemma {:induction false} FixedIsLowerHex(n: nat, width: nat)
    ensures IsLowerHex(FixedHex(n, width))
  {
    if width > 0 { FixedIsLowerHex(n / 16, width - 1); }
  }

  function HexValue(c: char): int
    requires '0' <= c <= '9' || 'a' <= c <= 'f'
  {
    if c <= '9' then (c - '0') as int else (c - 'a') as int + 10
  }

  /** `Number.parseInt(s, 16)` on lower-case digits. */
  function ParseHex(s: string): nat
    requires IsLowerHex(s)
  {
    if s == "" then 0
    else
      assert HexValue(s[|s| - 1]) >= 0;
      16 * ParseHex(s[..|s| - 1]) + HexValue(s[|s| - 1])
  }

  lemma {:induction false} FixedHexDropsLast(n: nat, width: nat, k: nat)
    requires k < width
    ensures FixedHex(n, width)[..k] == FixedHex(n / 16, width - 1)[..k]
  {
  }

  lemma {:induction false} TwoDigitsParse(b: Byte)
    ensures IsLowerHex(FixedHex(b, 2)) && ParseHex(FixedHex(b, 2)) == b
  {
    FixedIsLowerHex(b, 2);
    var s := FixedHex(b, 2);
    assert FixedHex(b / 16, 1) == FixedHex(b / 16 / 16, 0) + [HexDigit(b / 16 % 16)];
    assert s == [HexDigit(b / 16), HexDigit(b % 16)];
    var high := s[..1];
    assert high == [HexDigit(b / 16)];
    assert high[..0] == "";
    assert ParseHex(high) == 16 * ParseHex(high[..0]) + HexValue(high[0]);
  }

  lemma {:induction false} SixDigitsDown(h: Uint32)
    ensures h / 16 / 16 / 16 / 16 / 16 / 16 == h / 0x100_0000
    ensures 0 <= h / 0x100_0000 < 256
  {
  }

  /** The hash prints as exactly eight lower-case digits, and the first two parse to its top byte. */
  lemma {:induction false} HashPrintsItsTopByte(bytes: seq<Byte>)
    ensures |HashText(bytes)| == 8 && IsLowerHex(HashText(bytes))
    ensures IsLowerHex(HashText(bytes)[..2])
    ensures ParseHex(HashText(bytes)[..2]) == Fnv1a(bytes, |bytes|) / 0x100_0000 < 256
  {
    hide Fnv1a, ParseHex, HexDigit;
    var h := Fnv1a(bytes, |bytes|);
    EightDigitsSuffice(h);
    FixedIsLowerHex(h, 8);
    FixedHexDropsLast(h, 8, 2);
    FixedHexDropsLast(h / 16, 7, 2);
    FixedHexDropsLast(h / 16 / 16, 6, 2);
    FixedHexDropsLast(h / 16 / 16 / 16, 5, 2);
    FixedHexDropsLast(h / 16 / 16 / 16 / 16, 4, 2);
    FixedHexDropsLast(h / 16 / 16 / 16 / 16 / 16, 3, 2);
    SixDigitsDown(h);
    var top := h / 0x100_0000;
    assert FixedHex(top, 2)[..2] == FixedHex(top, 2);
    TwoDigitsParse(top);
  }

  lemma {:induction false} EightDigitsSuffice(h: Uint32)
    ensures PadStart(ToHex(h), 8) == FixedHex(h, 8)
  {
    assert PowerOf16(2) == 0x100;
    assert PowerOf16(4) == 0x1_0000;
    assert PowerOf16(6) == 0x100_0000;
    assert PowerOf16(8) == 0x1_0000_0000;
    PaddedHexIsFixed(h, 8);
  }

  // ---------------------------------------------------------------------------------------------
  // The keystream and the exclusive-or with it.
  // ---------------------------------------------------------------------------------------------

  /** UTF-8 as the host encodes and decodes it. */
  datatype TextCodec = TextCodec(encode: Text -> seq<Byte>, decode: seq<Byte> -> Text)

  /** Encoding replaces unpaired surrogates, and decoding drops a leading byte-order mark. */
  ghost predicate LawfulText(text: TextCodec) {
    forall t :: text.decode(text.encode(t)) == WithoutBom(ToWellFormed(t))
  }

  function StreamSeed(passphrase: Text, salt: string, index: nat): Text {
    passphrase + Units(":" + salt + ":" + NatText(index))
  }

  /** Byte `index` of the keystream: the top byte of the hash of its seed. */
  function StreamByte(passphrase: Text, salt: string, index: nat, text: TextCodec): Byte {
    var seed := text.encode(StreamSeed(passphrase, salt, index));
    Fnv1a(seed, |seed|) / 0x100_0000
  }

  function XorByte(a: Byte, b: Byte): Byte {
    PowersOf2();
    BitXor(a, b, 8)
  }

  lemma {:induction false} XorTwice(a: Byte, b: Byte)
    ensures XorByte(XorByte(a, b), b) == a
  {
    PowersOf2();
    BitXorTwice(a, b, 8);
  }

  function Xored(bytes: seq<Byte>, passphrase: Text, salt: string, text: TextCodec, n: nat): (r: seq<Byte>)
    requires n <= |bytes|
    ensures |r| == n
    ensures forall k :: 0 <= k < n ==> r[k] == XorByte(bytes[k], StreamByte(passphrase, salt, k, text))
  {
    if n == 0 then []
    else
      Xored(bytes, passphrase, salt, text, n - 1)
      + [XorByte(bytes[n - 1], StreamByte(passphrase, salt, n - 1, text))]
  }

  method CreateKeystream(length: nat, passphrase: Text, salt: string, text: TextCodec) returns (output: array<Byte>)
    ensures fresh(output) && output.Length == length
    ensures forall k :: 0 <= k < length ==> output[k] == StreamByte(passphrase, salt, k, text)
    ensures forall k :: 0 <= k < length ==>
      var seed := text.encode(passphrase + Units(":" + salt + ":" + NatText(k)));
      output[k] == Fnv1a(seed, |seed|) / 0x100_0000
  {
    hide HashText, Fnv1a, ParseHex, IsLowerHex;
    output := new Byte[length];
    for index := 0 to length
      invariant forall k :: 0 <= k < index ==> output[k] == StreamByte(passphrase, salt, k, text)
    {
      var seed := text.encode(StreamSeed(passphrase, salt, index));
      var streamByteHex := HashToHex(seed);
      HashPrintsItsTopByte(seed);
      output[index] := ParseHex(streamByteHex[..2]);
    }
  }

  method XorWithKeystream(bytes: seq<Byte>, passphrase: Text, salt: string, text: TextCodec) returns (output: seq<Byte>)
    ensures output == Xored(bytes, passphrase, salt, text, |bytes|)
    ensures |output| == |bytes|
    ensures forall k :: 0 <= k < |bytes| ==>
      output[k] == XorByte(bytes[k], StreamByte(passphrase, salt, k, text))
  {
    hide StreamByte, XorByte;
    var keystream := CreateKeystream(|bytes|, passphrase, salt, text);
    var buffer := new Byte[|bytes|];
    for index := 0 to |bytes|
      invariant forall k :: 0 <= k < index ==> buffer[k] == XorByte(bytes[k], StreamByte(passphrase, salt, k, text))
      invariant forall k :: 0 <= k < |bytes| ==> keystream[k] == StreamByte(passphrase, salt, k, text)
    {
      buffer[index] := XorByte(bytes[index], keystream[index]);
    }
    output := buffer[..];
    assert output == Xored(bytes, passphrase, salt, text, |bytes|);
  }

  /** Applying the keystream twice gives the bytes back. */
  lemma {:induction false} StreamIsItsOwnInverse(bytes: seq<Byte>, passphrase: Text, salt: string, text: TextCodec)
    ensures var once := Xored(bytes, passphrase, salt, text, |bytes|);
      Xored(once, passphrase, salt, text, |once|) == bytes
  {
    hide StreamByte, XorByte;
    var once := Xored(bytes, passphrase, salt, text, |bytes|);
    var twice := Xored(once, passphrase, salt, text, |once|);
    forall k | 0 <= k < |bytes| ensures twice[k] == bytes[k] {
      XorTwice(bytes[k], StreamByte(passphrase, salt, k, text));
    }
  }
}
