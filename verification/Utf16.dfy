/**
 JavaScript text: sequences of 16-bit units in which surrogates may stand unpaired. Encoding replaces an unpaired one,
 decoding drops a leading byte-order mark, so not every text comes back.
 */
module Utf16 {

  type Unit = u: int | 0 <= u < 0x10000

  type Text = seq<Unit>

  const BOM: Unit := 0xFEFF
  const REPLACEMENT: Unit := 0xFFFD

  predicate IsHigh(u: Unit) {
    0xD800 <= u < 0xDC00
  }

  predicate IsLow(u: Unit) {
    0xDC00 <= u < 0xE000
  }

  /** Every surrogate is one of a pair, high before low. */
  predicate WellFormed(t: Text) {
    if t == [] then true
    else if IsHigh(t[0]) then |t| > 1 && IsLow(t[1]) && WellFormed(t[2..])
    else !IsLow(t[0]) && WellFormed(t[1..])
  }

  /** The text with every unpaired surrogate replaced. */
  function ToWellFormed(t: Text): (r: Text)
    ensures |r| == |t|
  {
    if t == [] then []
    else if IsHigh(t[0]) && |t| > 1 && IsLow(t[1]) then t[..2] + ToWellFormed(t[2..])
    else [if IsHigh(t[0]) || IsLow(t[0]) then REPLACEMENT else t[0]] + ToWellFormed(t[1..])
  }

  function WithoutBom(t: Text): Text {
    if t != [] && t[0] == BOM then t[1..] else t
  }

  /** The texts that encoding and decoding give back. */
  predicate ComesBack(t: Text) {
    WellFormed(t) && (t == [] || t[0] != BOM)
  }

  lemma {:induction false} WellFormedIsUnchanged(t: Text)
    ensures ToWellFormed(t) == t <==> WellFormed(t)
    decreases |t|
  {
    if t == [] {
    } else if IsHigh(t[0]) && |t| > 1 && IsLow(t[1]) {
      WellFormedIsUnchanged(t[2..]);
      assert t == t[..2] + t[2..];
      assert ToWellFormed(t)[2..] == ToWellFormed(t[2..]);
    } else {
      WellFormedIsUnchanged(t[1..]);
      assert t == [t[0]] + t[1..];
      assert ToWellFormed(t)[1..] == ToWellFormed(t[1..]);
    }
  }

  /** What is replaced is a surrogate, by U+FFFD; and nothing is left unpaired. */
  lemma {:induction false} ReplacesOnlyTheUnpaired(t: Text)
    ensures WellFormed(ToWellFormed(t))
    ensures forall k :: 0 <= k < |t| ==>
      ToWellFormed(t)[k] == t[k] || (ToWellFormed(t)[k] == 0xFFFD && (IsHigh(t[k]) || IsLow(t[k])))
    decreases |t|
  {
    if t == [] {
    } else if IsHigh(t[0]) && |t| > 1 && IsLow(t[1]) {
      ReplacesOnlyTheUnpaired(t[2..]);
      assert ToWellFormed(t)[2..] == ToWellFormed(t[2..]);
      assert forall k :: 2 <= k < |t| ==> ToWellFormed(t)[k] == ToWellFormed(t[2..])[k - 2] && t[k] == t[2..][k - 2];
    } else {
      ReplacesOnlyTheUnpaired(t[1..]);
      assert ToWellFormed(t)[1..] == ToWellFormed(t[1..]);
      assert forall k :: 1 <= k < |t| ==> ToWellFormed(t)[k] == ToWellFormed(t[1..])[k - 1] && t[k] == t[1..][k - 1];
    }
  }

  lemma {:induction false} ComesBackExactly(t: Text)
    ensures WithoutBom(ToWellFormed(t)) == t <==> ComesBack(t)
  {
    WellFormedIsUnchanged(t);
    if t != [] { assert ToWellFormed(t)[0] == BOM <==> t[0] == BOM; }
  }

  /** The units of a character: a pair beyond the first plane. */
  function UnitsOf(c: char): Text {
    var n := c as int;
    if n < 0x10000 then [n] else [0xD800 + (n - 0x10000) / 0x400, 0xDC00 + (n - 0x10000) % 0x400]
  }

  /** A string of characters as JavaScript holds it. */
  function Units(s: string): Text {
    if s == "" then [] else UnitsOf(s[0]) + Units(s[1..])
  }

  /** It comes back unless its first character is the byte-order mark. */
  lemma {:induction false} UnitsComeBack(s: string)
    ensures ComesBack(Units(s)) <==> s == "" || s[0] != '\U{FEFF}'
  {
    UnitsAreWellFormed(s);
    if s != "" { assert Units(s)[0] == UnitsOf(s[0])[0]; }
  }

  lemma {:induction false} UnitsAreWellFormed(s: string)
    ensures WellFormed(Units(s))
  {
    if s != "" {
      UnitsAreWellFormed(s[1..]);
      var first, rest := UnitsOf(s[0]), Units(s[1..]);
      assert (first + rest)[|first|..] == rest;
    }
  }
}
