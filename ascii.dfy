/**
 * Bytes of a C string literal and the plugin's letter test, the `is_alpha`
 * macro of spellhell.c.
 */
module Ascii {

  /** One byte of a string literal, read as an unsigned value. */
  newtype byte = b: int | 0 <= b < 256

  /** The macro `is_alpha` on the integer value of a `char`: strictly between
      '@' (64) and '[' (91), or strictly between '`' (96) and '{' (123). */
  predicate IsAlphaCode(v: int) {
    (v > 64 && v < 91) || (v > 96 && v < 123)
  }

  /** The value a byte has when the scanner reads it through a `const char *`
      on a target where `char` is signed (bytes 128..255 become negative). */
  function SignedValue(b: byte): int {
    if b < 128 then b as int else b as int - 256
  }

  /** `is_alpha(data[0])` as the scanner evaluates it. Only ASCII bytes
      can be letters. */
  predicate IsAlpha(b: byte)
    ensures IsAlpha(b) ==> b < 128
  {
    IsAlphaCode(SignedValue(b))
  }

  /** The numeric bounds of the macro are the ASCII letter ranges: every
      digit, blank, punctuation mark, control byte and byte from 128 up is a
      separator. */
  lemma IsAlphaIsLetter(b: byte)
    ensures IsAlpha(b) <==> var c := b as int as char; ('A' <= c <= 'Z') || ('a' <= c <= 'z')
  {
  }

  /** Whether `char` is signed or unsigned does not change the verdict:
      a byte from 128 up is a separator either way. */
  lemma IsAlphaSignednessFree(b: byte)
    ensures IsAlpha(b) <==> IsAlphaCode(b as int)
    ensures b >= 128 ==> !IsAlpha(b)
  {
  }

  /** The bytes of a string whose characters all fit in a byte. */
  function Bytes(s: string): (r: seq<byte>)
    requires forall i :: 0 <= i < |s| ==> s[i] as int < 256
    ensures |r| == |s|
    ensures forall i :: 0 <= i < |s| ==> r[i] as int == s[i] as int
  {
    seq(|s|, i requires 0 <= i < |s| => s[i] as int as byte)
  }
}
