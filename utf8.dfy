/** The lead-byte classifier utf8CharLen of src/main.cpp, against the table of
    section 3 of RFC 3629. */
module Utf8 {
  /** The value `*ch` takes in `*ch & mask` after C's integer promotion: a
      plain `char` is sign-extended where it is signed and zero-extended where
      it is unsigned. */
  function Promote(b: bv8, charIsSigned: bool): (w: bv32)
    ensures w & 0xFF == b as bv32
    ensures !charIsSigned ==> w < 0x100
  {
    if charIsSigned && b & 0x80 != 0 then b as bv32 | 0xFFFF_FF00 else b as bv32
  }

  /** Number of bytes of the UTF-8 sequence whose first byte is `b`, or 0 when
      `b` cannot start a sequence. The results are the rows of the table in
      section 3 of RFC 3629 and do not depend on the signedness of `char`. */
  function CharLen(b: bv8, charIsSigned: bool): (n: nat)
    ensures n <= 4
    ensures n == 1 <==> b < 0x80
    ensures n == 2 <==> 0xC0 <= b < 0xE0
    ensures n == 3 <==> 0xE0 <= b < 0xF0
    ensures n == 4 <==> 0xF0 <= b < 0xF8
    ensures n == 0 <==> (0x80 <= b < 0xC0 || 0xF8 <= b)
  {
    var w := Promote(b, charIsSigned);
    if w & 0x80 == 0 then 1
    else if w & 0xE0 == 0xC0 then 2
    else if w & 0xF0 == 0xE0 then 3
    else if w & 0xF8 == 0xF0 then 4
    else 0
  }
}
