/**
 * The IV-18 tube font: the byte-to-segment lookup `TubeDigit` of the
 * MAX6921/IV-18 driver, with its three lookup tables and the handful of
 * punctuation patterns.
 *
 * A segment byte has one bit per segment of the 7-segment digit plus the
 * dot: bit 0 top, bit 1 top-right, bit 2 bottom-right, bit 3 bottom,
 * bit 4 bottom-left, bit 5 top-left, bit 6 middle, bit 7 dot.
 */
module Font {

  /** An unsigned 8-bit character code. */
  newtype byte = x: int | 0 <= x < 256

  // Segment bits.
  const SegTop: bv8 := 0x01
  const SegTopRight: bv8 := 0x02
  const SegBottomRight: bv8 := 0x04
  const SegBottom: bv8 := 0x08
  const SegBottomLeft: bv8 := 0x10
  const SegTopLeft: bv8 := 0x20
  const SegMid: bv8 := 0x40
  const Dot: bv8 := 0x80

  // Named glyphs used outside the tables.
  const FontDash: bv8 := 0x40
  const FontDegree: bv8 := 0x63
  const FontUnderscore: bv8 := 0x08

  // Glyphs that the upper-case table builds from single segments.
  const GlyphE: bv8 := SegTop | SegMid | SegBottom | SegTopLeft | SegBottomLeft
  const GlyphUpperC: bv8 := SegTop | SegBottom | SegTopLeft | SegBottomLeft
  const GlyphUpperH: bv8 := SegMid | SegTopLeft | SegBottomLeft | SegTopRight | SegBottomRight
  const GlyphUpperL: bv8 := SegTopLeft | SegBottomLeft | SegBottom
  const GlyphUpperT: bv8 := SegTop | SegTopLeft | SegBottomLeft
  const GlyphUpperU: bv8 := SegBottom | SegTopLeft | SegBottomLeft | SegTopRight | SegBottomRight

  /** Glyphs of 'a'..'z', indexed by `v - 'a'`. */
  const LowerTable: seq<bv8> := [
    0x77, 0x7C, 0x58, 0x5E, GlyphE, 0x71, 0x6F, 0x74, SegBottomRight, 0x1E,  // a..j
    0x75, 0x38, 0x37, 0x54, 0x5C, 0x73, 0xCF, 0x50, 0x6D, 0x78,              // k..t
    0x1C, 0x1C, 0x7E, 0x76, 0x6E, 0x5B                                       // u..z
  ]

  /** Glyphs of 'A'..'Z', indexed by `v - 'A'`. */
  const UpperTable: seq<bv8> := [
    0x77, 0x7F, GlyphUpperC, 0x5E, GlyphE, 0x71, 0x6F, GlyphUpperH, GlyphUpperC, 0x1E,  // A..J
    0x75, GlyphUpperL, 0x37, 0x37, 0x3F, 0x73, 0xCF, 0x50, 0x6D, GlyphUpperT,           // K..T
    GlyphUpperU, GlyphUpperU, 0x7E, 0x76, 0x6E, 0x5B                                    // U..Z
  ]

  /** Glyphs of '0'..'9', indexed by `v - '0'`. */
  const NumberTable: seq<bv8> := [0x3F, 0x06, 0x5B, 0x4F, 0x66, 0x6D, 0x7D, 0x07, 0x7F, 0x67]

  predicate IsLower(v: byte) { 'a' as byte <= v <= 'z' as byte }
  predicate IsUpper(v: byte) { 'A' as byte <= v <= 'Z' as byte }
  predicate IsDigit(v: byte) { '0' as byte <= v <= '9' as byte }

  /** The seven punctuation characters that have a glyph of their own. */
  predicate IsPunctuation(v: byte) {
    v == '!' as byte || v == '"' as byte || v == '\'' as byte || v == '`' as byte ||
    v == '@' as byte || v == '_' as byte || v == '-' as byte
  }

  /** The bytes the font draws; every other byte is drawn blank. */
  predicate IsDrawn(v: byte) { IsLower(v) || IsUpper(v) || IsDigit(v) || IsPunctuation(v) }

  /**
   * The segment pattern of a character. Letters and digits go through the
   * tables (the range tests keep every index in bounds), seven punctuation
   * characters have fixed patterns, anything else is blank. Every drawn
   * character lights at least one segment, and only 'q', 'Q' and '!' carry
   * the dot bit in their pattern.
   */
  function TubeDigit(v: byte): (r: bv8)
    ensures r == 0 <==> !IsDrawn(v)
    ensures r & Dot != 0 <==> v == 'q' as byte || v == 'Q' as byte || v == '!' as byte
  {
    TablesHaveNoBlank();
    TablesDotFree();
    if IsLower(v) then LowerTable[(v - 'a' as byte) as int]
    else if IsUpper(v) then UpperTable[(v - 'A' as byte) as int]
    else if IsDigit(v) then NumberTable[(v - '0' as byte) as int]
    else if v == '!' as byte then SegTopRight | SegBottomRight | Dot
    else if v == '"' as byte then SegTopLeft | SegTopRight
    else if v == '\'' as byte then SegTopLeft
    else if v == '`' as byte then SegTopRight
    else if v == '@' as byte then FontDegree
    else if v == '_' as byte then FontUnderscore
    else if v == '-' as byte then FontDash
    else 0
  }

  lemma TablesHaveNoBlank()
    ensures forall k :: 0 <= k < |LowerTable| ==> LowerTable[k] != 0
    ensures forall k :: 0 <= k < |UpperTable| ==> UpperTable[k] != 0
    ensures forall k :: 0 <= k < |NumberTable| ==> NumberTable[k] != 0
  {
  }

  lemma TablesDotFree()
    ensures forall k :: 0 <= k < |LowerTable| && k != 16 ==> LowerTable[k] & Dot == 0
    ensures forall k :: 0 <= k < |UpperTable| && k != 16 ==> UpperTable[k] & Dot == 0
    ensures forall k :: 0 <= k < |NumberTable| ==> NumberTable[k] & Dot == 0
  {
    LowerDotFree();
    UpperDotFree();
  }

  lemma LowerDotFree()
    ensures forall k :: 0 <= k < |LowerTable| && k != 16 ==> LowerTable[k] & Dot == 0
  {
  }

  lemma UpperDotFree()
    ensures forall k :: 0 <= k < |UpperTable| && k != 16 ==> UpperTable[k] & Dot == 0
  {
  }

  /** Pinned glyphs: digits, letters that share a glyph, punctuation, blanks. */
  lemma Glyphs()
    ensures TubeDigit('0' as byte) == 0x3F && TubeDigit('8' as byte) == 0x7F
    ensures TubeDigit('B' as byte) == TubeDigit('8' as byte)
    ensures TubeDigit('O' as byte) == TubeDigit('0' as byte)
    ensures TubeDigit('V' as byte) == TubeDigit('U' as byte) == 0x3E
    ensures TubeDigit('!' as byte) == 0x86 && TubeDigit('"' as byte) == 0x22
    ensures TubeDigit('\'' as byte) == 0x20 && TubeDigit('`' as byte) == 0x02
    ensures TubeDigit('@' as byte) == 0x63 && TubeDigit('_' as byte) == 0x08
    ensures TubeDigit('-' as byte) == 0x40
    ensures TubeDigit('.' as byte) == 0 && TubeDigit(' ' as byte) == 0 && TubeDigit(0) == 0
  {
  }
}
