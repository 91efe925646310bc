/**
 * The 24-bit frame that `set_digit` stores for one digit position:
 * the segment pattern (plus the dot, ADDED rather than OR'd) shifted to
 * bits 16..23, and the digit-select bit of the position masked to bits 8..15.
 */
module Frames {
  import opened Font

  /** Number of digit positions of the tube. */
  const Positions: nat := 9

  /**
   * The frame for position `idx` showing `val`, with `seg` added to the glyph:
   * positions 0..7 select exactly their own bit, position 8 lies outside the
   * 8-bit select field and selects nothing, bits 0..7 stay clear, and the
   * segment part is the glyph plus `seg` as an integer sum (no truncation).
   */
  function Frame(idx: nat, val: byte, seg: bv8): (f: bv32)
    requires idx < Positions
    ensures Select(f) == if idx < 8 then 1 << idx else 0
    ensures f & 0xFF == 0
    ensures Segments(f) == TubeDigit(val) as bv32 + seg as bv32
  {
    ((TubeDigit(val) as bv32 + seg as bv32) << 16) | ((1 << (idx + 8)) & 0xFF00)
  }

  /**
   * What a digit record holds, as the driver last wrote it: the zero payload
   * that setup stores, or the frame `set_digit` stored for a character and
   * its added segment.
   */
  datatype Cell = Cleared | Set(chr: byte, seg: bv8)

  /** The 24-bit payload of the record for position `idx` holding `c`. */
  function Payload(idx: nat, c: Cell): bv32
    requires idx < Positions
  {
    match c
    case Cleared => 0
    case Set(chr, seg) => Frame(idx, chr, seg)
  }

  /** The digit-select field (bits 8..15) of a frame. */
  function Select(f: bv32): bv32 { (f >> 8) & 0xFF }

  /** Everything from bit 16 up: the segment byte and any carry out of it. */
  function Segments(f: bv32): bv32 { f >> 16 }

  /**
   * Adding the dot: for every character but 'q', 'Q' and '!' the segment byte is
   * the glyph with the dot bit set; for those three, whose glyph already has the
   * dot bit, the sum carries into bit 24 and the dot bit ends up clear.
   */
  lemma DotFrame(idx: nat, val: byte)
    requires idx < Positions
    ensures var s := Segments(Frame(idx, val, Dot));
      if val == 'q' as byte || val == 'Q' as byte || val == '!' as byte
      then s == 0x100 | (TubeDigit(val) & 0x7F) as bv32
      else s == (TubeDigit(val) | Dot) as bv32
  {
  }
}
