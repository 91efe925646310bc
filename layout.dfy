/**
 * How `print(start, str)` lays a NUL-terminated string out on the tube: the
 * k-th character it consumes goes to position 7 - start - k, a '.' right
 * after a character becomes that character's dot instead of taking a
 * position, and the walk stops at the NUL or once position 0 is written.
 * Position 8 is never written.
 */
module Layout {
  import opened Font
  import opened Frames

  const Nul: byte := 0
  const Period: byte := '.' as byte

  /** Byte `i` of the C string held in `s`: every index past the end reads the NUL. */
  function At(s: seq<byte>, i: nat): byte { if i < |s| then s[i] else Nul }

  /** One digit that `print` writes: its position, its character and the added segment. */
  datatype Placement = Placement(pos: nat, chr: byte, seg: bv8)

  /**
   * The placements of the print loop over the rest `s` of the string, with loop
   * counter `d` (the digit written is 7 - d). Each step consumes one
   * character, and the '.' after it as the dot. `Walk(s, start)` is what
   * `print(start, s)` writes.
   */
  function Walk(s: seq<byte>, d: nat): (ps: seq<Placement>)
    ensures |ps| <= if d < 8 then 8 - d else 0
    decreases 8 - d
  {
    if d >= 8 || At(s, 0) == Nul then []
    else
      var dot := At(s, 1) == Period;
      [Placement(7 - d, s[0], if dot then Dot else 0)] + Walk(s[if dot then 2 else 1..], d + 1)
  }

  /** The characters one placement consumed: the character, then its '.' if it has the dot. */
  function Chunk(p: Placement): seq<byte> {
    if p.seg == Dot then [p.chr, Period] else [p.chr]
  }

  /** The characters a run of placements consumed. */
  function Unparse(ps: seq<Placement>): seq<byte> {
    if ps == [] then [] else Chunk(ps[0]) + Unparse(ps[1..])
  }

  /** Placements `print` can produce from loop counter `d` on. */
  ghost predicate Printable(ps: seq<Placement>, d: nat) {
    && (ps == [] || |ps| + d <= 8)
    && (forall k :: 0 <= k < |ps| ==> ps[k].pos == 7 - d - k)
    && (forall k :: 0 <= k < |ps| ==> ps[k].chr != Nul && (ps[k].seg == 0 || ps[k].seg == Dot))
    && NoStrayPeriod(ps)
  }

  /** No placement without the dot is followed by a '.' character (that '.' would be its dot). */
  predicate NoStrayPeriod(ps: seq<Placement>) {
    |ps| < 2 || ((ps[0].seg == 0 ==> ps[1].chr != Period) && NoStrayPeriod(ps[1..]))
  }

  /** What a placement stores in the record of its position. */
  function CellOf(p: Placement): Cell { Set(p.chr, p.seg) }

  /** A bank after storing the placements `ps` in order (a position outside the bank stores nothing). */
  function Paint(bank: seq<Cell>, ps: seq<Placement>): (r: seq<Cell>)
    requires |bank| <= Positions
    ensures |r| == |bank|
    decreases |ps|
  {
    if ps == [] then bank
    else if ps[0].pos < |bank| then Paint(bank[ps[0].pos := CellOf(ps[0])], ps[1..])
    else Paint(bank, ps[1..])
  }

  /** One step of the walk: the placement it makes and how many characters it consumes. */
  lemma WalkStep(s: seq<byte>, d: nat) returns (p: Placement, k: nat)
    requires d < 8 && At(s, 0) != Nul
    ensures k == (if At(s, 1) == Period then 2 else 1) && k <= |s|
    ensures p == Placement(7 - d, s[0], if At(s, 1) == Period then Dot else 0)
    ensures Walk(s, d) == [p] + Walk(s[k..], d + 1)
  {
    k := if At(s, 1) == Period then 2 else 1;
    p := Placement(7 - d, s[0], if At(s, 1) == Period then Dot else 0);
  }

  /** Reading the rest of the string from index `k`. */
  lemma AtDrop(s: seq<byte>, k: nat, i: nat)
    requires k <= |s|
    ensures At(s[k..], i) == At(s, k + i)
  {
  }

  /**
   * The walk from loop counter `d` writes positions 7 - d, 6 - d, ... in turn,
   * each character it places is not the NUL, and the added segment is either
   * nothing or the dot.
   */
  lemma {:induction false} WalkPrintable(s: seq<byte>, d: nat)
    ensures Printable(Walk(s, d), d)
    decreases 8 - d
  {
    if d < 8 && At(s, 0) != Nul {
      var p, k := WalkStep(s, d);
      WalkPrintable(s[k..], d + 1);
      var ps, tail := Walk(s, d), Walk(s[k..], d + 1);
      assert ps[0] == p && ps[1..] == tail;
      if k == 1 && |ps| > 1 {
        AtDrop(s, 1, 0);
        assert ps[1].chr == At(s, 1);
      }
    }
  }

  /** Dropping the dots back in gives exactly the part of the string the walk consumed. */
  lemma {:induction false} WalkConsumesPrefix(s: seq<byte>, d: nat)
    ensures Unparse(Walk(s, d)) <= s
    decreases 8 - d
  {
    if d < 8 && At(s, 0) != Nul {
      var p, k := WalkStep(s, d);
      var ps, tail := Walk(s, d), Walk(s[k..], d + 1);
      assert Chunk(p) == s[..k];
      WalkConsumesPrefix(s[k..], d + 1);
      var u := Unparse(tail);
      assert ps[0] == p && ps[1..] == tail;
      assert Unparse(ps) == s[..k] + u;
      PrefixBehind(s, k, u);
    }
  }

  /** A prefix of `s[k..]` behind `s[..k]` is a prefix of `s`. */
  lemma PrefixBehind(s: seq<byte>, k: nat, u: seq<byte>)
    requires k <= |s| && u <= s[k..]
    ensures s[..k] + u <= s
  {
    var v := s[..k] + u;
    assert |v| <= |s|;
    forall i | 0 <= i < |v|
      ensures v[i] == s[i]
    {
      if i >= k {
        assert v[i] == u[i - k] == s[k..][i - k];
      }
    }
  }

  /** The walk stops before position 0 only at the NUL (or the end of `s`) right after what it consumed. */
  lemma {:induction false} WalkStopsAtNul(s: seq<byte>, d: nat)
    ensures d + |Walk(s, d)| < 8 ==> At(s, |Unparse(Walk(s, d))|) == Nul
    decreases 8 - d
  {
    if d < 8 && At(s, 0) != Nul {
      var p, k := WalkStep(s, d);
      var ps, tail := Walk(s, d), Walk(s[k..], d + 1);
      WalkStopsAtNul(s[k..], d + 1);
      assert ps[0] == p && ps[1..] == tail;
      assert |Unparse(ps)| == |Chunk(p)| + |Unparse(tail)| && |Chunk(p)| == k;
      AtDrop(s, k, |Unparse(tail)|);
    } else {
      assert Walk(s, d) == [] && Unparse([]) == [];
    }
  }

  /** Printing the text of printable placements reproduces exactly those placements. */
  lemma {:induction false} WalkUnparse(ps: seq<Placement>, d: nat)
    requires Printable(ps, d)
    ensures Walk(Unparse(ps), d) == ps
    decreases |ps|
  {
    if ps != [] {
      var head, rest := Chunk(ps[0]), Unparse(ps[1..]);
      var u := Unparse(ps);
      assert u == head + rest;
      assert Printable(ps[1..], d + 1);
      WalkUnparse(ps[1..], d + 1);
      assert At(u, 0) == ps[0].chr != Nul;
      if ps[0].seg != Dot && |ps| > 1 {
        assert At(u, 1) == rest[0] == ps[1].chr;
      }
      var p, k := WalkStep(u, d);
      assert k == |head| && u[k..] == rest;
      assert p == ps[0];
      HeadTail(ps);
    }
  }

  /** A non-empty sequence is its head followed by its tail. */
  lemma HeadTail<T>(s: seq<T>)
    requires s != []
    ensures [s[0]] + s[1..] == s
  {
  }

  /**
   * One step of the print loop: storing character `c` (with its dot, when a
   * '.' follows) at position 7 - d turns painting the walk over `s[c..]` into
   * painting the walk over the rest.
   */
  lemma PaintStep(bank: seq<Cell>, bank': seq<Cell>, s: seq<byte>, c: nat, d: nat, seg: bv8, next: nat)
    returns (rest: seq<Placement>)
    requires |bank| == Positions && c <= |s| && d < 8 && At(s, c) != Nul
    requires seg == (if At(s, c + 1) == Period then Dot else 0)
    requires next == (if At(s, c + 1) == Period then c + 2 else c + 1)
    requires bank' == bank[7 - d := Set(s[c], seg)]
    ensures next <= |s| && rest == Walk(s[next..], d + 1)
    ensures Paint(bank, Walk(s[c..], d)) == Paint(bank', rest)
  {
    AtDrop(s, c, 0);
    AtDrop(s, c, 1);
    var p, k := WalkStep(s[c..], d);
    assert s[c..][k..] == s[next..];
    rest := Walk(s[next..], d + 1);
    assert Walk(s[c..], d) == [p] + rest;
    assert ([p] + rest)[0] == p && ([p] + rest)[1..] == rest;
  }

  /** The walk over `s[c..]` is over once the loop condition fails. */
  lemma WalkDone(s: seq<byte>, c: nat, d: nat)
    requires c <= |s| && (d >= 8 || At(s, c) == Nul)
    ensures Walk(s[c..], d) == []
  {
    AtDrop(s, c, 0);
  }

  /**
   * Painting placements whose positions count down from `top` stores each
   * placement at its position and leaves every other position as it was.
   */
  lemma {:induction false} PaintDescending(bank: seq<Cell>, ps: seq<Placement>, top: nat)
    requires |bank| == Positions && |ps| <= top + 1 <= Positions
    requires forall k :: 0 <= k < |ps| ==> ps[k].pos == top - k
    ensures forall p :: 0 <= p < Positions ==>
      Paint(bank, ps)[p] == if top - |ps| < p <= top then CellOf(ps[top - p]) else bank[p]
    decreases |ps|
  {
    if ps != [] {
      var bank' := bank[top := CellOf(ps[0])];
      if top == 0 {
        assert ps[1..] == [];
      } else {
        PaintDescending(bank', ps[1..], top - 1);
      }
    }
  }

  /**
   * What `print(start, s)` leaves in the bank it writes: the k-th placement
   * at position 7 - start - k, every other position (position 8 among them)
   * unchanged; a start past 7 changes nothing.
   */
  lemma PrintedBank(bank: seq<Cell>, s: seq<byte>, start: nat)
    requires |bank| == Positions
    ensures var ps := Walk(s, start);
      forall p :: 0 <= p < Positions ==>
        Paint(bank, ps)[p] ==
          if start + p <= 7 && 8 - start - |ps| <= p then CellOf(ps[7 - start - p]) else bank[p]
  {
    WalkPrintable(s, start);
    PaintCountdown(bank, Walk(s, start), start);
  }

  /** `PrintedBank` for any placements at positions 7 - d, 6 - d, ... in turn. */
  lemma PaintCountdown(bank: seq<Cell>, ps: seq<Placement>, d: nat)
    requires |bank| == Positions && (ps == [] || |ps| + d <= 8)
    requires forall k :: 0 <= k < |ps| ==> ps[k].pos == 7 - d - k
    ensures forall p :: 0 <= p < Positions ==>
      Paint(bank, ps)[p] ==
        if d + p <= 7 && 8 - d - |ps| <= p then CellOf(ps[7 - d - p]) else bank[p]
  {
    if d < 8 {
      PaintDescending(bank, ps, 7 - d);
    } else {
      assert ps == [];
    }
  }

  /** "12.3" from position 0: '1' at 7, '2' with the dot at 6, '3' at 5; nothing else is written. */
  lemma PrintExample()
    ensures Walk(['1' as byte, '2' as byte, '.' as byte, '3' as byte], 0)
      == [Placement(7, '1' as byte, 0), Placement(6, '2' as byte, Dot), Placement(5, '3' as byte, 0)]
  {
    var s := ['1' as byte, '2' as byte, '.' as byte, '3' as byte];
    assert s[1..][2..] == ['3' as byte] && ['3' as byte][1..] == [];
    assert Walk([], 3) == [];
    assert Walk(['3' as byte], 2) == [Placement(5, '3' as byte, 0)];
    assert Walk(s[1..], 1) == [Placement(6, '2' as byte, Dot)] + Walk(['3' as byte], 2);
  }
}
