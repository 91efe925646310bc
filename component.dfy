/**
 * The MAX6921/IV-18 display component: two banks of nine digit records, the
 * byte that says which bank the refresh loop transmits, the refresh flag, and
 * the SPI device queue, abstracted as the list of queued transfers.
 *
 * Producers (`SetDigit`, `PrintAt`, `Print`, `Printf`) write the pending bank
 * and `Display` swaps the banks; the first swap starts refresh by queueing the
 * nine transfers of the new active bank. `Complete` is the bus finishing one
 * queued transfer followed by the completion callback, which re-queues the
 * same position from whichever bank is active at that moment.
 */
module Max6921Iv18 {
  import opened Font
  import opened Frames
  import opened Layout
  import opened Refresh

  /** Number of digit banks. */
  const Banks: nat := 2

  /** Length in bits of every digit transfer. */
  const FrameBits: nat := 24

  /** Intensity until `SetIntensity` is called, on the 0..15 scale. */
  const DefaultIntensity: byte := 15

  /** Size of the `printf` buffer, terminating NUL included. */
  const PrintfBufferSize: nat := 10

  /**
   * One digit record: the length and the 24-bit payload of its transfer
   * descriptor, and its own position, from which the callback recovers
   * which position just completed.
   */
  datatype Digit = Digit(idx: nat, length: nat, frame: bv32)

  class Component {
    var digits: array2<Digit>
    var digitsActive: bv8
    var active: bool
    var intensity: byte
    /** The SPI device queue: transfers queued and not yet completed, oldest first. */
    var inFlight: seq<Transfer>
    /** Every level written to the latch line by the completion callback, in order. */
    var latch: seq<bool>
    /** What each digit record holds, cells[bank][position]; its payload is `Payload(position, cell)`. */
    ghost var cells: seq<seq<Cell>>

    ghost predicate Shape()
      reads this`digits
    {
      digits.Length0 == Banks && digits.Length1 == Positions
    }

    /** Before refresh starts nothing is queued; afterwards each position has exactly one transfer. */
    ghost predicate QueueInvariant()
      reads this`active, this`inFlight
    {
      && (!active ==> inFlight == [])
      && (active ==> OnePerPosition(inFlight) && forall k :: 0 <= k < |inFlight| ==> inFlight[k].bank < Banks)
    }

    ghost predicate Valid()
      reads this, digits
    {
      && Shape()
      && QueueInvariant()
      && digitsActive <= 1
      && |cells| == Banks && (forall g :: 0 <= g < Banks ==> |cells[g]| == Positions)
      && forall g, d :: 0 <= g < Banks && 0 <= d < Positions ==>
           digits[g, d] == Digit(d, FrameBits, Payload(d, cells[g][d]))
    }

    /** The bank the refresh loop transmits, as `digits_active` indexes it. */
    function ActiveBank(): nat
      reads this`digitsActive
    {
      if digitsActive == 0 then 0 else 1
    }

    /** The bank producers write: `!digits_active`. */
    function PendingBank(): nat
      reads this`digitsActive
    {
      if digitsActive == 0 then 1 else 0
    }

    /** The component as constructed: refresh off, nothing queued, default intensity. */
    constructor ()
      ensures Shape() && QueueInvariant() && fresh(digits)
      ensures !active && inFlight == [] && latch == []
      ensures digitsActive == 0 && intensity == DefaultIntensity
    {
      digits := new Digit[Banks, Positions]((g, d) => Digit(0, 0, 0));
      digitsActive := 0;
      active := false;
      intensity := DefaultIntensity;
      inFlight := [];
      latch := [];
      cells := [Blank(), Blank()];
    }

    /**
     * The digit-record part of setup: every record gets its own position,
     * a 24-bit length and a zero payload, and bank 0 becomes the active bank.
     */
    method Setup()
      requires Shape() && QueueInvariant()
      modifies this`digitsActive, this`cells, digits
      ensures Valid() && digits == old(digits)
      ensures forall g, d :: 0 <= g < Banks && 0 <= d < Positions ==> digits[g, d] == Digit(d, FrameBits, 0)
      ensures cells == [Blank(), Blank()]
      ensures digitsActive == 0
      ensures active == old(active) && inFlight == old(inFlight)
      ensures latch == old(latch) && intensity == old(intensity)
    {
      for g := 0 to Banks
        invariant forall g', d :: 0 <= g' < g && 0 <= d < Positions ==> digits[g', d] == Digit(d, FrameBits, 0)
      {
        for d := 0 to Positions
          invariant forall g', d' :: 0 <= g' < g && 0 <= d' < Positions ==> digits[g', d'] == Digit(d', FrameBits, 0)
          invariant forall d' :: 0 <= d' < d ==> digits[g, d'] == Digit(d', FrameBits, 0)
        {
          digits[g, d] := Digit(d, FrameBits, 0);
        }
      }
      cells := [Blank(), Blank()];
      digitsActive := 0;
    }

    /**
     * Stores the frame of `val` (with `seg` added to its glyph) for position
     * `idx` in the pending bank; nothing else changes.
     */
    method SetDigit(idx: byte, val: byte, seg: bv8)
      requires Valid() && idx < Positions as byte
      modifies digits, this`cells
      ensures Valid()
      ensures cells == old(cells)[PendingBank() := old(cells[PendingBank()])[idx as nat := Set(val, seg)]]
      ensures digits[PendingBank(), idx] == Digit(idx as nat, FrameBits, Frame(idx as nat, val, seg))
      ensures forall g, d :: 0 <= g < Banks && 0 <= d < Positions && (g, d) != (PendingBank(), idx as int) ==>
        digits[g, d] == old(digits[g, d])
    {
      var g := PendingBank();
      digits[g, idx] := digits[g, idx].(frame := Frame(idx as nat, val, seg));
      cells := cells[g := cells[g][idx as nat := Set(val, seg)]];
    }

    /**
     * Flips the active bank. Only the first call, while refresh is off,
     * starts refresh and queues positions 0..8 of the new active bank in order;
     * later calls leave the queue to the callback.
     */
    method Display()
      requires Valid()
      modifies this`digitsActive, this`active, this`inFlight
      ensures Valid() && digits == old(digits) && cells == old(cells)
      ensures digitsActive == old(digitsActive) ^ 1 && ActiveBank() == old(PendingBank())
      ensures active
      ensures inFlight == if old(active) then old(inFlight) else Sweep(ActiveBank(), Positions)
      ensures latch == old(latch) && intensity == old(intensity)
    {
      FlipSelector(digitsActive);
      digitsActive := digitsActive ^ 1;
      if !active {
        active := true;
        var b := ActiveBank();
        var d := 0;
        while d < Positions
          invariant 0 <= d <= Positions
          invariant inFlight == Sweep(b, d)
          modifies this`inFlight
        {
          inFlight := inFlight + [Transfer(b, d)];
          d := d + 1;
        }
        KickOffOnePerPosition(b);
      }
    }

    /**
     * The bus finishes queued transfer `i`, sending the frame its record holds
     * now, and the completion callback runs: latch high, re-queue the same
     * position from the bank active now (refresh being on), latch low.
     */
    method Complete(i: nat) returns (sent: bv32)
      requires Valid() && i < |inFlight|
      modifies this`inFlight, this`latch
      ensures Valid() && digits == old(digits) && cells == old(cells)
      ensures sent == Payload(old(inFlight[i]).slot, cells[old(inFlight[i]).bank][old(inFlight[i]).slot])
      ensures inFlight == Requeue(old(inFlight), i, ActiveBank())
      ensures latch == old(latch) + [true, false]
      ensures digitsActive == old(digitsActive) && active == old(active) && intensity == old(intensity)
    {
      var t := inFlight[i];
      sent := digits[t.bank, t.slot].frame;
      inFlight := inFlight[..i] + inFlight[i + 1..];
      // the completion callback
      var pos := digits[t.bank, t.slot].idx;
      latch := latch + [true];
      if active {
        inFlight := inFlight + [Transfer(ActiveBank(), pos)];
      }
      latch := latch + [false];
      RequeuePreserves(old(inFlight), i, ActiveBank());
    }

    /**
     * The loop of `print(start, str)`: writes the characters of the C string
     * `s` into the pending bank, the k-th one at position 7 - start - k and a
     * following '.' as its dot, until the NUL or position 0.
     */
    method PlaceText(start: byte, s: seq<byte>)
      requires Valid()
      modifies digits, this`cells
      ensures Valid()
      ensures cells[PendingBank()] == Paint(old(cells[PendingBank()]), Walk(s, start as nat))
      ensures cells[ActiveBank()] == old(cells[ActiveBank()])
    {
      var d: nat := start as nat;
      var c: nat := 0;
      ghost var g := PendingBank();
      ghost var painted := Paint(cells[g], Walk(s, d));
      assert s[0..] == s;
      while d < 8 && At(s, c) != Nul
        invariant Valid() && c <= |s|
        invariant Paint(cells[g], Walk(s[c..], d)) == painted
        invariant cells[ActiveBank()] == old(cells[ActiveBank()])
        decreases 8 - d
      {
        c := PlaceChar(d, s, c);
        d := d + 1;
      }
      WalkDone(s, c, d);
    }

    /**
     * One pass of the print loop: character `c` of `s` goes to position 7 - d,
     * with the dot when a '.' follows it. Returns the index after what it consumed.
     */
    method PlaceChar(d: nat, s: seq<byte>, c: nat) returns (next: nat)
      requires Valid() && d < 8 && c < |s| && s[c] != Nul
      modifies digits, this`cells
      ensures Valid()
      ensures next == (if At(s, c + 1) == Period then c + 2 else c + 1) && next <= |s|
      ensures cells == old(cells)[PendingBank() :=
        old(cells[PendingBank()])[7 - d := Set(s[c], if At(s, c + 1) == Period then Dot else 0)]]
      ensures Paint(cells[PendingBank()], Walk(s[next..], d + 1))
        == Paint(old(cells[PendingBank()]), Walk(s[c..], d))
    {
      var seg: bv8 := 0;
      var chr := s[c];
      next := c;
      if At(s, c + 1) == Period {
        seg := Dot;
        next := next + 1;
      }
      SetDigit((7 - d) as byte, chr, seg);
      next := next + 1;
      ghost var rest := PaintStep(old(cells[PendingBank()]), cells[PendingBank()], s, c, d, seg, next);
    }

    /**
     * `print(start, str)`: places the text in the pending bank, then swaps
     * the banks with `Display`, so the text becomes the active bank. Returns 0.
     */
    method PrintAt(start: byte, s: seq<byte>) returns (r: byte)
      requires Valid()
      modifies this`digitsActive, this`active, this`inFlight, this`cells, digits
      ensures Valid() && digits == old(digits)
      ensures ActiveBank() == old(PendingBank())
      ensures cells[ActiveBank()] == Paint(old(cells[PendingBank()]), Walk(s, start as nat))
      ensures cells[PendingBank()] == old(cells[ActiveBank()])
      ensures active
      ensures inFlight == if old(active) then old(inFlight) else Sweep(ActiveBank(), Positions)
      ensures latch == old(latch) && intensity == old(intensity)
      ensures r == 0
    {
      PlaceText(start, s);
      Display();
      r := 0;
    }

    /** `print(str)`: exactly `PrintAt(0, s)`. */
    method Print(s: seq<byte>) returns (r: byte)
      requires Valid()
      modifies this`digitsActive, this`active, this`inFlight, this`cells, digits
      ensures Valid() && digits == old(digits)
      ensures ActiveBank() == old(PendingBank())
      ensures cells[ActiveBank()] == Paint(old(cells[PendingBank()]), Walk(s, 0))
      ensures cells[PendingBank()] == old(cells[ActiveBank()])
      ensures active
      ensures inFlight == if old(active) then old(inFlight) else Sweep(ActiveBank(), Positions)
      ensures latch == old(latch) && intensity == old(intensity)
      ensures r == 0
    {
      r := PrintAt(0, s);
    }

    /**
     * `printf(format, ...)` from position 0, given the formatted text and the
     * `vsnprintf` result `ret` (its length, or negative on an error). Only the
     * first nine characters fit the buffer and are printed; a result of zero or
     * less prints nothing and is returned as an unsigned byte. Truncation is
     * not reported: any printed text returns 0.
     */
    method Printf(ret: int, formatted: seq<byte>) returns (r: byte)
      requires Valid()
      requires ret >= 0 ==> ret == |formatted|
      modifies this`digitsActive, this`active, this`inFlight, this`cells, digits
      ensures Valid() && digits == old(digits)
      ensures ret > 0 ==>
        && ActiveBank() == old(PendingBank())
        && cells[ActiveBank()] == Paint(old(cells[PendingBank()]), Walk(Truncated(formatted), 0))
        && cells[PendingBank()] == old(cells[ActiveBank()])
        && active
        && inFlight == (if old(active) then old(inFlight) else Sweep(ActiveBank(), Positions))
        && r == 0
      ensures ret <= 0 ==>
        && digitsActive == old(digitsActive) && active == old(active) && inFlight == old(inFlight)
        && cells == old(cells)
        && r as int == ret % 256
      ensures latch == old(latch) && intensity == old(intensity)
    {
      if ret > 0 {
        r := PrintAt(0, Truncated(formatted));
      } else {
        r := (ret % 256) as byte;
      }
    }

    /** The stub `printf(pos, format, ...)`: prints nothing and returns 0. */
    method PrintfAt(pos: byte, formatted: seq<byte>) returns (r: byte)
      ensures r == 0
    {
      r := 0;
    }

    /** Stores the intensity; nothing in the driver reads it back. */
    method SetIntensity(level: byte)
      modifies this`intensity
      ensures intensity == level
    {
      intensity := level;
    }
  }

  /** A bank of nine cleared records. */
  function Blank(): (b: seq<Cell>)
    ensures |b| == Positions && forall d :: 0 <= d < Positions ==> b[d] == Cleared
  {
    seq(Positions, d => Cleared)
  }

  /** Toggling bit 0 of a selector that is 0 or 1 swaps the two banks. */
  lemma FlipSelector(x: bv8)
    requires x <= 1
    ensures x ^ 1 <= 1 && (x ^ 1 == 0 <==> x != 0)
  {
  }

  /** What `vsnprintf` leaves in the ten-byte buffer: at most the first nine characters. */
  function Truncated(formatted: seq<byte>): (b: seq<byte>)
    ensures |b| < PrintfBufferSize && b <= formatted
    ensures |formatted| < PrintfBufferSize ==> b == formatted
    ensures |formatted| >= PrintfBufferSize ==> b == formatted[..PrintfBufferSize - 1]
  {
    if |formatted| < PrintfBufferSize then formatted else formatted[..PrintfBufferSize - 1]
  }
}
