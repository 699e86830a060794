/**
 Base64 as the envelopes and pairing links use it (sections 3.5, 4 and 5 of RFC 4648): the two encoders, the
 decoders that accept only canonical text by encoding again, and the legacy pattern with its length formula
 (packages/security/src/argon2-policy.ts, IOSProductCompositionView.swift).
 */
module Base64 {
  import opened Basics

  type Byte = b: int | 0 <= b < 256

  type Sextet = x: int | 0 <= x < 64

  /** The standard alphabet, or the one that is safe in URLs. */
  datatype Alphabet = Standard | UrlSafe

  function CharOf(a: Alphabet, x: Sextet): char {
    if x < 26 then 'A' + x as char
    else if x < 52 then 'a' + (x - 26) as char
    else if x < 62 then '0' + (x - 52) as char
    else if x == 62 then (if a.Standard? then '+' else '-')
    else (if a.Standard? then '/' else '_')
  }

  function SextetOf(a: Alphabet, c: char): Option<Sextet> {
    if 'A' <= c <= 'Z' then Some((c - 'A') as int)
    else if 'a' <= c <= 'z' then Some((c - 'a') as int + 26)
    else if '0' <= c <= '9' then Some((c - '0') as int + 52)
    else if c == (if a.Standard? then '+' else '-') then Some(62)
    else if c == (if a.Standard? then '/' else '_') then Some(63)
    else None
  }

  predicate InAlphabet(a: Alphabet, c: char) {
    SextetOf(a, c).Some?
  }

  predicate AllInAlphabet(a: Alphabet, s: string) {
    forall k :: 0 <= k < |s| ==> InAlphabet(a, s[k])
  }

  lemma {:induction false} AlphabetIsOneToOne(a: Alphabet, x: Sextet, c: char)
    ensures SextetOf(a, CharOf(a, x)) == Some(x)
    ensures SextetOf(a, c) == Some(x) ==> c == CharOf(a, x)
  {
  }

  // ---------------------------------------------------------------------------------------------
  // Encoding without padding.
  // ---------------------------------------------------------------------------------------------

  /** The four sextets of three bytes. */
  function Group(a: Alphabet, b0: Byte, b1: Byte, b2: Byte): (s: string)
    ensures |s| == 4
  {
    [CharOf(a, b0 / 4), CharOf(a, b0 % 4 * 16 + b1 / 16), CharOf(a, b1 % 16 * 4 + b2 / 64), CharOf(a, b2 % 64)]
  }

  function Pair(a: Alphabet, b0: Byte, b1: Byte): (s: string)
    ensures |s| == 3
  {
    [CharOf(a, b0 / 4), CharOf(a, b0 % 4 * 16 + b1 / 16), CharOf(a, b1 % 16 * 4)]
  }

  function Single(a: Alphabet, b0: Byte): (s: string)
    ensures |s| == 2
  {
    [CharOf(a, b0 / 4), CharOf(a, b0 % 4 * 16)]
  }

  function Encode(a: Alphabet, d: seq<Byte>): (s: string)
    ensures |s| == (4 * |d| + 2) / 3
  {
    if d == [] then ""
    else if |d| == 1 then Single(a, d[0])
    else if |d| == 2 then Pair(a, d[0], d[1])
    else Group(a, d[0], d[1], d[2]) + Encode(a, d[3..])
  }

  /** The three bytes of four sextets. */
  function First(x0: Sextet, x1: Sextet): Byte {
    x0 * 4 + x1 / 16
  }

  function Second(x1: Sextet, x2: Sextet): Byte {
    x1 % 16 * 16 + x2 / 4
  }

  function Third(x2: Sextet, x3: Sextet): Byte {
    x2 % 4 * 64 + x3
  }

  lemma GroupLength(n: nat)
    ensures 3 * (n + 4) / 4 == 3 * n / 4 + 3 && (n + 4) % 4 == n % 4
  {
  }

  /** A decoder that ignores the unused low bits of the last sextet. */
  function Decode(a: Alphabet, s: string): (r: Option<seq<Byte>>)
    ensures r.Some? ==> |r.value| == 3 * |s| / 4 && |s| % 4 != 1
  {
    if s == "" then Some([])
    else if |s| == 1 || !InAlphabet(a, s[0]) || !InAlphabet(a, s[1]) then None
    else
      var x0, x1 := SextetOf(a, s[0]).value, SextetOf(a, s[1]).value;
      if |s| == 2 then Some([First(x0, x1)])
      else if !InAlphabet(a, s[2]) then None
      else
        var x2 := SextetOf(a, s[2]).value;
        if |s| == 3 then Some([First(x0, x1), Second(x1, x2)])
        else if !InAlphabet(a, s[3]) then None
        else
          var x3 := SextetOf(a, s[3]).value;
          match Decode(a, s[4..])
          case None => None
          case Some(rest) => GroupLength(|s| - 4); Some([First(x0, x1), Second(x1, x2), Third(x2, x3)] + rest)
  }

  lemma {:induction false} GroupSextets(a: Alphabet, b0: Byte, b1: Byte, b2: Byte)
    ensures var s := Group(a, b0, b1, b2);
      && SextetOf(a, s[0]) == Some(b0 / 4) && SextetOf(a, s[1]) == Some(b0 % 4 * 16 + b1 / 16)
      && SextetOf(a, s[2]) == Some(b1 % 16 * 4 + b2 / 64) && SextetOf(a, s[3]) == Some(b2 % 64)
  {
    hide CharOf, SextetOf;
    AlphabetIsOneToOne(a, b0 / 4, ' ');
    AlphabetIsOneToOne(a, b0 % 4 * 16 + b1 / 16, ' ');
    AlphabetIsOneToOne(a, b1 % 16 * 4 + b2 / 64, ' ');
    AlphabetIsOneToOne(a, b2 % 64, ' ');
  }

  /** Three bytes cut into four sextets are put together again. */
  lemma {:induction false} BitsRejoin(b0: Byte, b1: Byte, b2: Byte)
    ensures First(b0 / 4, b0 % 4 * 16 + b1 / 16) == b0
    ensures Second(b0 % 4 * 16 + b1 / 16, b1 % 16 * 4 + b2 / 64) == b1
    ensures Third(b1 % 16 * 4 + b2 / 64, b2 % 64) == b2
  {
  }

  /** The same for the last one or two bytes, whose last sextet has its unused bits zero. */
  lemma {:induction false} LastBitsRejoin(b0: Byte, b1: Byte)
    ensures First(b0 / 4, b0 % 4 * 16) == b0 && b0 % 4 * 16 % 16 == 0
    ensures First(b0 / 4, b0 % 4 * 16 + b1 / 16) == b0
    ensures Second(b0 % 4 * 16 + b1 / 16, b1 % 16 * 4) == b1 && b1 % 16 * 4 % 4 == 0
  {
  }

  lemma {:induction false} DecodeGroup(a: Alphabet, b0: Byte, b1: Byte, b2: Byte, t: string)
    ensures Decode(a, Group(a, b0, b1, b2) + t)
         == match Decode(a, t) case None => None case Some(rest) => Some([b0, b1, b2] + rest)
  {
    var s := Group(a, b0, b1, b2) + t;
    assert s[4..] == t;
    GroupSextets(a, b0, b1, b2);
    BitsRejoin(b0, b1, b2);
    hide CharOf, SextetOf, Group;
  }

  lemma {:induction false} DecodeSingle(a: Alphabet, b0: Byte)
    ensures Decode(a, Single(a, b0)) == Some([b0])
  {
    hide CharOf, SextetOf, First, Second, Third;
    AlphabetIsOneToOne(a, b0 / 4, ' ');
    AlphabetIsOneToOne(a, b0 % 4 * 16, ' ');
    LastBitsRejoin(b0, 0);
  }

  lemma {:induction false} DecodePair(a: Alphabet, b0: Byte, b1: Byte)
    ensures Decode(a, Pair(a, b0, b1)) == Some([b0, b1])
  {
    hide CharOf, SextetOf;
    AlphabetIsOneToOne(a, b0 / 4, ' ');
    AlphabetIsOneToOne(a, b0 % 4 * 16 + b1 / 16, ' ');
    AlphabetIsOneToOne(a, b1 % 16 * 4, ' ');
    LastBitsRejoin(b0, b1);
  }

  /** Decoding undoes encoding. */
  lemma {:induction false} DecodeEncode(a: Alphabet, d: seq<Byte>)
    ensures Decode(a, Encode(a, d)) == Some(d)
  {
    hide CharOf, SextetOf, Group, Pair, Single;
    if |d| == 1 {
      hide Decode;
      DecodeSingle(a, d[0]);
      assert [d[0]] == d;
    } else if |d| == 2 {
      hide Decode;
      DecodePair(a, d[0], d[1]);
      assert [d[0], d[1]] == d;
    } else if |d| > 2 {
      hide Decode;
      DecodeEncode(a, d[3..]);
      DecodeGroup(a, d[0], d[1], d[2], Encode(a, d[3..]));
      assert [d[0], d[1], d[2]] + d[3..] == d;
    }
  }

  lemma {:induction false} EncodedIsInAlphabet(a: Alphabet, d: seq<Byte>)
    ensures AllInAlphabet(a, Encode(a, d))
  {
    hide CharOf, SextetOf;
    if |d| == 1 {
      AlphabetIsOneToOne(a, d[0] / 4, ' ');
      AlphabetIsOneToOne(a, d[0] % 4 * 16, ' ');
    } else if |d| == 2 {
      AlphabetIsOneToOne(a, d[0] / 4, ' ');
      AlphabetIsOneToOne(a, d[0] % 4 * 16 + d[1] / 16, ' ');
      AlphabetIsOneToOne(a, d[1] % 16 * 4, ' ');
    } else if |d| > 2 {
      EncodedIsInAlphabet(a, d[3..]);
      GroupSextets(a, d[0], d[1], d[2]);
    }
  }

  // ---------------------------------------------------------------------------------------------
  // Canonical decoders: decode with the platform's decoder, encode again, compare.
  // ---------------------------------------------------------------------------------------------

  type Decoder = string -> Option<seq<Byte>>

  /** All that is asked of a platform decoder: it reads back what the encoder writes. */
  ghost predicate ReadsBack(decode: Decoder, a: Alphabet) {
    forall d :: decode(Encode(a, d)) == Some(d)
  }

  /** `decodeCanonicalBase64URL` of the security package. */
  function DecodeCanonicalBase64Url(value: string, decode: Decoder): Option<seq<Byte>> {
    if value == "" || !AllInAlphabet(UrlSafe, value) || '=' in value then None
    else
      match decode(value)
      case None => None
      case Some(decoded) => if Encode(UrlSafe, decoded) == value then Some(decoded) else None
  }

  /** `decodeBase64URL` of the iOS pairing link. */
  function DecodePairingLink(value: string, decode: Decoder): Option<seq<Byte>> {
    if value == "" || !AllInAlphabet(UrlSafe, value) || |value| % 4 == 1 then None
    else
      match decode(value)
      case None => None
      case Some(data) => if Encode(UrlSafe, data) == value then Some(data) else None
  }

  /** The decoder above qualifies, however lenient it is. */
  lemma {:induction false} ReferenceDecoderReadsBack(a: Alphabet)
    ensures ReadsBack(s => Decode(a, s), a)
  {
    forall d ensures Decode(a, Encode(a, d)) == Some(d) {
      DecodeEncode(a, d);
    }
  }

  /** Both canonical decoders accept exactly what the encoder makes of non-empty data, and give that data back. */
  lemma {:induction false} CanonicalDecodersInvertTheEncoder(value: string, d: seq<Byte>, decode: Decoder)
    requires ReadsBack(decode, UrlSafe)
    ensures DecodeCanonicalBase64Url(value, decode) == Some(d) <==> d != [] && value == Encode(UrlSafe, d)
    ensures DecodePairingLink(value, decode) == Some(d) <==> d != [] && value == Encode(UrlSafe, d)
  {
    hide Encode, SextetOf;
    EncodedIsInAlphabet(UrlSafe, d);
    assert decode(Encode(UrlSafe, d)) == Some(d);
    PadIsOutside();
  }

  // ---------------------------------------------------------------------------------------------
  // Padded text and the legacy pattern.
  // ---------------------------------------------------------------------------------------------

  function EncodePadded(d: seq<Byte>): (s: string)
    ensures |s| == (|d| + 2) / 3 * 4
  {
    if d == [] then ""
    else if |d| == 1 then Single(Standard, d[0]) + "=="
    else if |d| == 2 then Pair(Standard, d[0], d[1]) + "="
    else Group(Standard, d[0], d[1], d[2]) + EncodePadded(d[3..])
  }

  const AFTER_ONE_BYTE: string := "AQgw"
  const AFTER_TWO_BYTES: string := "AEIMQUYcgkosw048"

  predicate EndsOneByte(c: char) {
    c in AFTER_ONE_BYTE
  }

  predicate EndsTwoBytes(c: char) {
    c in AFTER_TWO_BYTES
  }

  /** The last, padded group of the legacy pattern. */
  predicate MatchesTail(s: string) {
    |s| == 4 && InAlphabet(Standard, s[0]) && s[3] == '='
    && if s[2] == '=' then EndsOneByte(s[1]) else InAlphabet(Standard, s[1]) && EndsTwoBytes(s[2])
  }

  predicate MatchesGroup(s: string)
    requires |s| >= 4
  {
    InAlphabet(Standard, s[0]) && InAlphabet(Standard, s[1]) && InAlphabet(Standard, s[2]) && InAlphabet(Standard, s[3])
  }

  /** The pattern: any number of whole groups, then perhaps one padded group. */
  predicate MatchesLegacyPattern(s: string) {
    s == "" || MatchesTail(s) || (|s| >= 4 && MatchesGroup(s) && MatchesLegacyPattern(s[4..]))
  }

  function PaddingBytes(s: string): nat {
    if |s| >= 2 && s[|s| - 2] == '=' && s[|s| - 1] == '=' then 2
    else if |s| >= 1 && s[|s| - 1] == '=' then 1
    else 0
  }

  /** The number of bytes the policy computes from the text alone. */
  function PayloadBytes(s: string): int {
    |s| / 4 * 3 - PaddingBytes(s)
  }

  /** The two classes of last characters are those whose unused bits are zero. */
  lemma {:induction false} AfterOneByte(c: char)
    ensures EndsOneByte(c) <==> InAlphabet(Standard, c) && SextetOf(Standard, c).value % 16 == 0
  {
    assert AFTER_ONE_BYTE[0] == 'A' && AFTER_ONE_BYTE[1] == 'Q' && AFTER_ONE_BYTE[2] == 'g' && AFTER_ONE_BYTE[3] == 'w';
  }

  lemma {:induction false} AfterTwoBytes(c: char)
    ensures EndsTwoBytes(c) <==> InAlphabet(Standard, c) && SextetOf(Standard, c).value % 4 == 0
  {
    var t := AFTER_TWO_BYTES;
    assert t[0] == 'A' && t[1] == 'E' && t[2] == 'I' && t[3] == 'M' && t[4] == 'Q' && t[5] == 'U' && t[6] == 'Y';
    assert t[7] == 'c' && t[8] == 'g' && t[9] == 'k' && t[10] == 'o' && t[11] == 's' && t[12] == 'w';
    assert t[13] == '0' && t[14] == '4' && t[15] == '8';
  }

  lemma {:induction false} PadIsOutside()
    ensures !InAlphabet(Standard, '=') && !InAlphabet(UrlSafe, '=')
  {
  }

  lemma {:induction false} EncodedMatches(d: seq<Byte>)
    ensures MatchesLegacyPattern(EncodePadded(d))
  {
    hide CharOf, SextetOf;
    PadIsOutside();
    if |d| == 1 {
      AlphabetIsOneToOne(Standard, d[0] / 4, ' ');
      AlphabetIsOneToOne(Standard, d[0] % 4 * 16, ' ');
      AfterOneByte(CharOf(Standard, d[0] % 4 * 16));
    } else if |d| == 2 {
      AlphabetIsOneToOne(Standard, d[0] / 4, ' ');
      AlphabetIsOneToOne(Standard, d[0] % 4 * 16 + d[1] / 16, ' ');
      AlphabetIsOneToOne(Standard, d[1] % 16 * 4, ' ');
      AfterTwoBytes(CharOf(Standard, d[1] % 16 * 4));
    } else if |d| > 2 {
      EncodedMatches(d[3..]);
      GroupSextets(Standard, d[0], d[1], d[2]);
      assert EncodePadded(d)[4..] == EncodePadded(d[3..]);
    }
  }

  /** The bytes of text that matches the pattern. */
  function DecodePadded(s: string): (d: seq<Byte>)
    requires MatchesLegacyPattern(s)
  {
    if s == "" then []
    else if MatchesTail(s) then
      var x0 := SextetOf(Standard, s[0]).value;
      if s[2] == '=' then AfterOneByte(s[1]); [First(x0, SextetOf(Standard, s[1]).value)]
      else
        AfterTwoBytes(s[2]);
        var x1, x2 := SextetOf(Standard, s[1]).value, SextetOf(Standard, s[2]).value;
        [First(x0, x1), Second(x1, x2)]
    else
      var x0, x1 := SextetOf(Standard, s[0]).value, SextetOf(Standard, s[1]).value;
      var x2, x3 := SextetOf(Standard, s[2]).value, SextetOf(Standard, s[3]).value;
      [First(x0, x1), Second(x1, x2), Third(x2, x3)] + DecodePadded(s[4..])
  }

  lemma {:induction false} GroupBack(s: string)
    requires |s| >= 4 && MatchesGroup(s)
    ensures var x0, x1 := SextetOf(Standard, s[0]).value, SextetOf(Standard, s[1]).value;
      var x2, x3 := SextetOf(Standard, s[2]).value, SextetOf(Standard, s[3]).value;
      Group(Standard, First(x0, x1), Second(x1, x2), Third(x2, x3)) == s[..4]
  {
    hide CharOf, SextetOf, First, Second, Third;
    var x0, x1 := SextetOf(Standard, s[0]).value, SextetOf(Standard, s[1]).value;
    var x2, x3 := SextetOf(Standard, s[2]).value, SextetOf(Standard, s[3]).value;
    AlphabetIsOneToOne(Standard, x0, s[0]);
    AlphabetIsOneToOne(Standard, x1, s[1]);
    AlphabetIsOneToOne(Standard, x2, s[2]);
    AlphabetIsOneToOne(Standard, x3, s[3]);
    FourSextetsRejoin(x0, x1, x2, x3);
  }

  lemma {:induction false} FourSextetsRejoin(x0: Sextet, x1: Sextet, x2: Sextet, x3: Sextet)
    ensures First(x0, x1) / 4 == x0 && First(x0, x1) % 4 * 16 + Second(x1, x2) / 16 == x1
    ensures Second(x1, x2) % 16 * 4 + Third(x2, x3) / 64 == x2 && Third(x2, x3) % 64 == x3
  {
  }

  /** The sextets are put together again from the bytes, when the unused bits are zero. */
  lemma {:induction false} SextetsRejoin(x0: Sextet, x1: Sextet, x2: Sextet)
    ensures x1 % 16 == 0 ==> First(x0, x1) / 4 == x0 && First(x0, x1) % 4 * 16 == x1
    ensures x2 % 4 == 0 ==>
      && First(x0, x1) / 4 == x0
      && First(x0, x1) % 4 * 16 + Second(x1, x2) / 16 == x1 && Second(x1, x2) % 16 * 4 == x2
  {
  }

  lemma {:induction false} TailBackSingle(s: string)
    requires MatchesTail(s) && s[2] == '='
    ensures EncodePadded(DecodePadded(s)) == s && |DecodePadded(s)| == 1
  {
    hide CharOf, SextetOf, EndsOneByte, EndsTwoBytes, First, Second;
    AfterOneByte(s[1]);
    var x0, x1 := SextetOf(Standard, s[0]).value, SextetOf(Standard, s[1]).value;
    AlphabetIsOneToOne(Standard, x0, s[0]);
    AlphabetIsOneToOne(Standard, x1, s[1]);
    SextetsRejoin(x0, x1, 0);
  }

  lemma {:induction false} TailBackPair(s: string)
    requires MatchesTail(s) && s[2] != '='
    ensures EncodePadded(DecodePadded(s)) == s && |DecodePadded(s)| == 2
  {
    hide CharOf, SextetOf, EndsOneByte, EndsTwoBytes, First, Second;
    AfterTwoBytes(s[2]);
    var x0, x1, x2 := SextetOf(Standard, s[0]).value, SextetOf(Standard, s[1]).value, SextetOf(Standard, s[2]).value;
    AlphabetIsOneToOne(Standard, x0, s[0]);
    AlphabetIsOneToOne(Standard, x1, s[1]);
    AlphabetIsOneToOne(Standard, x2, s[2]);
    SextetsRejoin(x0, x1, x2);
  }

  lemma {:induction false} TailBack(s: string)
    requires MatchesTail(s)
    ensures EncodePadded(DecodePadded(s)) == s && |s| % 4 == 0 && |DecodePadded(s)| == PayloadBytes(s)
  {
    hide EncodePadded, DecodePadded, EndsOneByte, EndsTwoBytes, SextetOf;
    PadIsOutside();
    if s[2] == '=' { TailBackSingle(s); } else { TailBackPair(s); }
  }

  lemma {:induction false} GroupIsEncoded(s: string)
    requires |s| >= 4 && MatchesLegacyPattern(s) && !MatchesTail(s) && MatchesGroup(s) && MatchesLegacyPattern(s[4..])
    requires EncodePadded(DecodePadded(s[4..])) == s[4..]
    requires |s[4..]| % 4 == 0 && |DecodePadded(s[4..])| == PayloadBytes(s[4..])
    ensures EncodePadded(DecodePadded(s)) == s
    ensures |s| % 4 == 0 && |DecodePadded(s)| == PayloadBytes(s)
  {
    hide MatchesTail, MatchesGroup, MatchesLegacyPattern, EncodePadded, DecodePadded, PaddingBytes;
    PaddingIsLast(s);
    MatchedGroup(s);
    assert s == s[..4] + s[4..];
    assert |s| / 4 == 1 + |s[4..]| / 4;
  }

  lemma {:induction false} MatchedIsEncoded(s: string)
    requires MatchesLegacyPattern(s)
    ensures EncodePadded(DecodePadded(s)) == s
    ensures |s| % 4 == 0 && |DecodePadded(s)| == PayloadBytes(s)
  {
    if s == "" {
    } else if MatchesTail(s) {
      hide MatchesTail, EncodePadded, DecodePadded, PaddingBytes, PayloadBytes;
      TailBack(s);
    } else {
      hide MatchesTail, MatchesGroup, EncodePadded, DecodePadded, PaddingBytes, PayloadBytes;
      MatchedIsEncoded(s[4..]);
      GroupIsEncoded(s);
    }
  }

  lemma {:induction false} PaddingIsLast(s: string)
    requires |s| >= 4 && MatchesGroup(s) && |s| % 4 == 0
    ensures PaddingBytes(s) == PaddingBytes(s[4..])
  {
    hide CharOf, SextetOf;
    PadIsOutside();
    if |s| == 4 {
    } else {
      assert s[4..][|s[4..]| - 1] == s[|s| - 1] && s[4..][|s[4..]| - 2] == s[|s| - 2];
    }
  }

  lemma {:induction false} MatchedGroup(s: string)
    requires |s| >= 4 && !MatchesTail(s) && MatchesGroup(s) && MatchesLegacyPattern(s[4..])
    ensures |DecodePadded(s)| == 3 + |DecodePadded(s[4..])|
    ensures EncodePadded(DecodePadded(s)) == s[..4] + EncodePadded(DecodePadded(s[4..]))
  {
    hide CharOf, SextetOf, Group;
    GroupBack(s);
    var d := DecodePadded(s);
    assert d[3..] == DecodePadded(s[4..]);
  }

  lemma {:induction false} DecodePaddedGroup(b0: Byte, b1: Byte, b2: Byte, t: string)
    requires MatchesLegacyPattern(t) && MatchesLegacyPattern(Group(Standard, b0, b1, b2) + t)
    ensures DecodePadded(Group(Standard, b0, b1, b2) + t) == [b0, b1, b2] + DecodePadded(t)
  {
    var s := Group(Standard, b0, b1, b2) + t;
    assert s[4..] == t;
    GroupSextets(Standard, b0, b1, b2);
    BitsRejoin(b0, b1, b2);
    PadIsOutside();
    hide CharOf, SextetOf, Group;
  }

  /** Reading padded text back gives the data, so different data never have the same padded text. */
  lemma {:induction false} DecodePaddedEncodePadded(d: seq<Byte>)
    ensures MatchesLegacyPattern(EncodePadded(d)) && DecodePadded(EncodePadded(d)) == d
  {
    hide CharOf, SextetOf, Group, MatchesLegacyPattern;
    EncodedMatches(d);
    if |d| == 1 {
      DecodePaddedSingle(d);
    } else if |d| == 2 {
      DecodePaddedPair(d);
    } else if |d| > 2 {
      hide DecodePadded;
      DecodePaddedEncodePadded(d[3..]);
      DecodePaddedGroup(d[0], d[1], d[2], EncodePadded(d[3..]));
      assert [d[0], d[1], d[2]] + d[3..] == d;
    }
  }

  lemma {:induction false} DecodePaddedSingle(d: seq<Byte>)
    requires |d| == 1
    ensures MatchesTail(EncodePadded(d)) && MatchesLegacyPattern(EncodePadded(d)) && DecodePadded(EncodePadded(d)) == d
  {
    hide CharOf, SextetOf, EndsOneByte, EndsTwoBytes, First, Second;
    PadIsOutside();
    AlphabetIsOneToOne(Standard, d[0] / 4, ' ');
    AlphabetIsOneToOne(Standard, d[0] % 4 * 16, ' ');
    AfterOneByte(CharOf(Standard, d[0] % 4 * 16));
    LastBitsRejoin(d[0], 0);
  }

  lemma {:induction false} DecodePaddedPair(d: seq<Byte>)
    requires |d| == 2
    ensures MatchesTail(EncodePadded(d)) && MatchesLegacyPattern(EncodePadded(d)) && DecodePadded(EncodePadded(d)) == d
  {
    hide CharOf, SextetOf, EndsOneByte, EndsTwoBytes, First, Second;
    PadIsOutside();
    AlphabetIsOneToOne(Standard, d[0] / 4, ' ');
    AlphabetIsOneToOne(Standard, d[0] % 4 * 16 + d[1] / 16, ' ');
    AlphabetIsOneToOne(Standard, d[1] % 16 * 4, ' ');
    AfterTwoBytes(CharOf(Standard, d[1] % 16 * 4));
    LastBitsRejoin(d[0], d[1]);
  }

  /** The legacy pattern accepts exactly the image of the padded encoder, and the length formula is the byte count. */
  lemma {:induction false} LegacyPatternIsTheEncodersImage(s: string)
    ensures MatchesLegacyPattern(s) <==> exists d :: s == EncodePadded(d)
    ensures forall d :: s == EncodePadded(d) ==> PayloadBytes(s) == |d|
  {
    hide MatchesLegacyPattern, EncodePadded, DecodePadded, PayloadBytes;
    forall d | s == EncodePadded(d) ensures MatchesLegacyPattern(s) && PayloadBytes(s) == |d| {
      DecodePaddedEncodePadded(d);
      MatchedIsEncoded(s);
    }
    if MatchesLegacyPattern(s) { MatchedIsEncoded(s); }
  }
}
