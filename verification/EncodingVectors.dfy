/**
 The encodings against their standards: the alphabets and examples of RFC 4648, the numbers its groups stand for, and
 the published values of 32-bit FNV-1a; and the exclusive-or of the keystream, bit by bit.
 */
module EncodingVectors {
  import opened Basics
  import opened Base64
  import opened LegacyStream

  /** Tables 1 and 2 of RFC 4648: three runs of consecutive characters, then the two that differ. */
  lemma {:induction false} AlphabetIsTheTable(a: Alphabet, x: Sextet)
    ensures CharOf(a, 0) == 'A' && CharOf(a, 26) == 'a' && CharOf(a, 52) == '0'
    ensures x < 61 && x != 25 && x != 51 ==> CharOf(a, x + 1) as int == CharOf(a, x) as int + 1
    ensures a.Standard? ==> CharOf(a, 62) == '+' && CharOf(a, 63) == '/'
    ensures a.UrlSafe? ==> CharOf(a, 62) == '-' && CharOf(a, 63) == '_'
  {
  }

  /** Section 10 of RFC 4648. */
  lemma {:induction false} Rfc4648Examples()
    ensures EncodePadded([]) == ""
    ensures EncodePadded([0x66]) == "Zg=="
    ensures EncodePadded([0x66, 0x6f]) == "Zm8="
    ensures EncodePadded([0x66, 0x6f, 0x6f]) == "Zm9v"
  {
  }

  /** A full group writes the three bytes as one number, most significant first, in base 64. */
  lemma {:induction false} GroupsAreNumbers(a: Alphabet, b0: Byte, b1: Byte, b2: Byte)
    ensures var s := Group(a, b0, b1, b2);
      && SextetOf(a, s[0]).Some? && SextetOf(a, s[1]).Some? && SextetOf(a, s[2]).Some? && SextetOf(a, s[3]).Some?
      && SextetOf(a, s[0]).value * 0x40000 + SextetOf(a, s[1]).value * 0x1000
         + SextetOf(a, s[2]).value * 0x40 + SextetOf(a, s[3]).value
         == b0 * 0x10000 + b1 * 0x100 + b2
  {
    hide CharOf, SextetOf, Group;
    GroupSextets(a, b0, b1, b2);
  }

  /** Bit `k` of a number. */
  function Bit(n: nat, k: nat): nat {
    if k == 0 then n % 2 else Bit(n / 2, k - 1)
  }

  /** The exclusive-or has a bit exactly where its operands differ. */
  lemma {:induction false} XorBitByBit(a: nat, b: nat, width: nat, k: nat)
    requires k < width
    ensures Bit(BitXor(a, b, width), k) == if Bit(a, k) == Bit(b, k) then 0 else 1
  {
    var r := BitXor(a, b, width);
    assert r / 2 == BitXor(a / 2, b / 2, width - 1);
    if k > 0 { XorBitByBit(a / 2, b / 2, width - 1, k - 1); }
  }

  lemma {:induction false} XorWithZero(a: nat, width: nat)
    requires a < PowerOf2(width)
    ensures BitXor(a, 0, width) == a
  {
    if width > 0 { XorWithZero(a / 2, width - 1); }
  }

  lemma {:induction false} XorStep(a: nat, b: nat, width: nat)
    requires width > 0
    ensures BitXor(a, b, width) == 2 * BitXor(a / 2, b / 2, width - 1) + if a % 2 == b % 2 then 0 else 1
  {
  }

  lemma {:induction false} OffsetBasisWithA()
    ensures XorBits(0x811c9dc5, 0x61) == 0x811c9da4
  {
    hide BitXor, PowerOf2;
    PowerOf25();
    XorWithZero(16922939, 25);
    XorStep(33845879, 1, 26);
    XorStep(67691758, 3, 27);
    XorStep(135383516, 6, 28);
    XorStep(270767032, 12, 29);
    XorStep(541534065, 24, 30);
    XorStep(1083068130, 48, 31);
    XorStep(2166136261, 97, 32);
  }

  lemma {:induction false} PowerOf25()
    ensures PowerOf2(25) == 0x200_0000
  {
    assert PowerOf2(8) == 0x100;
    assert PowerOf2(16) == 0x1_0000;
    assert PowerOf2(24) == 0x100_0000;
  }

  /** The published 32-bit FNV-1a values of the empty text and of "a". */
  lemma {:induction false} PublishedFnv1a()
    ensures Fnv1a([], 0) == 0x811c9dc5 && Fnv1a([0x61], 1) == 0xe40c292c
  {
    hide XorBits;
    OffsetBasisWithA();
    assert 0x811c9da4 * 0x01000193 % 0x1_0000_0000 == 0xe40c292c;
    assert Fnv1a([0x61], 0) == OFFSET_BASIS;
    assert Fnv1a([0x61], 1) == XorBits(0x811c9dc5, 0x61) * FNV_PRIME % TWO_TO_32;
  }
}
