/** 32-bit sequence numbers and timestamps.

The socket keeps every sequence number as a residue modulo 2^32 and compares
residues with four macros.  Proofs use the unbounded stream position a residue
stands for; the lemmas here say how far apart two positions may be for the
macros to compare them correctly.
*/
module Seq32 {

  const MODULUS := 0x1_0000_0000

  type u32 = x: int | 0 <= x < 0x1_0000_0000
  type byte = x: int | 0 <= x < 256

  /** The residue that stands for position `p`. */
  function Wrap(p: int): u32 { p % 0x1_0000_0000 }

  function Add(a: int, b: int): u32 { (a + b) % 0x1_0000_0000 }

  function Sub(a: int, b: int): u32 { (a - b) % 0x1_0000_0000 }

  function Min(a: int, b: int): int { if a < b then a else b }

  function Max(a: int, b: int): int { if a > b then a else b }

  // The macros LARGER, LARGER_OR_EQUAL, SMALLER and SMALLER_OR_EQUAL.
  predicate Larger(a: u32, b: u32) { Sub(Sub(a, b), 1) < 0x7FFF_FFFF }

  predicate LargerOrEqual(a: u32, b: u32) { Sub(a, b) < 0x7FFF_FFFF }

  predicate Smaller(a: u32, b: u32) { Larger(b, a) }

  predicate SmallerOrEqual(a: u32, b: u32) { LargerOrEqual(b, a) }

  // The only lemmas that look at the remainder operator ----------------------

  lemma WrapShift(x: int, k: int)
    ensures Wrap(x + k * 0x1_0000_0000) == Wrap(x)
  {
  }

  /** A position is its residue plus a whole number of laps. */
  lemma WrapLaps(p: int) returns (k: int)
    ensures p == Wrap(p) + k * 0x1_0000_0000
  {
    k := p / 0x1_0000_0000;
  }

  /** Values at most one lap outside the range. */
  lemma WrapNear(x: int)
    requires -MODULUS <= x < 2 * MODULUS
    ensures Wrap(x) == if x < 0 then x + MODULUS else if x < MODULUS then x else x - MODULUS
  {
  }

  lemma AddSubAreWrap(a: int, b: int)
    ensures Add(a, b) == Wrap(a + b)
    ensures Sub(a, b) == Wrap(a - b)
  {
  }

  // Positions and residues ---------------------------------------------------

  /** Residue arithmetic follows position arithmetic. */
  lemma WrapArithmetic(p: int, q: int)
    ensures Add(Wrap(p), q) == Wrap(p + q)
    ensures Sub(Wrap(p), q) == Wrap(p - q)
    ensures Sub(Wrap(p), Wrap(q)) == Wrap(p - q)
  {
    hide *;
    var k := WrapLaps(p);
    var l := WrapLaps(q);
    WrapShift(Wrap(p) + q, k);
    WrapShift(Wrap(p) - q, k);
    WrapShift(Wrap(p) - Wrap(q), k - l);
    AddSubAreWrap(Wrap(p), q);
    AddSubAreWrap(Wrap(p), Wrap(q));
  }

  /** Equal residues mean equal positions when the positions are close. */
  lemma WrapInjective(p: int, q: int)
    requires -MODULUS < p - q < MODULUS
    ensures Wrap(p) == Wrap(q) <==> p == q
    ensures 0 <= p - q ==> Sub(Wrap(p), Wrap(q)) == p - q
  {
    hide Wrap, Sub;
    WrapArithmetic(p, q);
    WrapNear(p - q);
    AddSubAreWrap(Wrap(p), Wrap(q));
    WrapNear(Wrap(p) - Wrap(q));
  }

  /** The strict macros order positions less than 2^31 apart. */
  lemma LargerIsGreater(p: int, q: int)
    requires -0x8000_0000 <= p - q <= 0x7FFF_FFFF
    ensures Larger(Wrap(p), Wrap(q)) <==> p > q
  {
    hide Wrap, Sub;
    WrapArithmetic(p, q);
    WrapNear(p - q);
    AddSubAreWrap(Wrap(p - q), 1);
    WrapNear(Wrap(p - q) - 1);
  }

  /** The reflexive macros cover one position less. */
  lemma LargerOrEqualIsAtLeast(p: int, q: int)
    requires -0x8000_0001 <= p - q <= 0x7FFF_FFFE
    ensures LargerOrEqual(Wrap(p), Wrap(q)) <==> p >= q
  {
    hide Wrap, Sub;
    WrapArithmetic(p, q);
    WrapNear(p - q);
  }

  /** LARGER does not imply LARGER_OR_EQUAL, although its name says so: the two
      disagree exactly when the residues are 2^31 - 1 apart. */
  lemma LargerWithoutOrEqual(a: u32, b: u32)
    ensures Larger(a, b) && !LargerOrEqual(a, b) <==> Sub(a, b) == 0x7FFF_FFFF
    ensures LargerOrEqual(a, b) && !Larger(a, b) <==> a == b
  {
    hide Wrap, Sub;
    AddSubAreWrap(a, b);
    WrapNear(a - b);
    AddSubAreWrap(Sub(a, b), 1);
    WrapNear(Sub(a, b) - 1);
  }

  /** The acknowledgement test accepts exactly the residues of the positions
      that are in flight, whatever 32-bit value the peer put in the header. */
  lemma AcceptedAckIsInFlight(ack: u32, una: int, nxt: int)
    requires 0 <= nxt - una < 0x4000_0000
    ensures Larger(ack, Wrap(una)) && SmallerOrEqual(ack, Wrap(nxt)) <==>
            1 <= Sub(ack, Wrap(una)) <= nxt - una
    ensures ack == Wrap(una + Sub(ack, Wrap(una)))
  {
    hide Wrap, Sub, Add;
    var d: int := Sub(ack, Wrap(una));
    AddSubAreWrap(ack, Wrap(una));
    WrapNear(ack - Wrap(una));
    WrapArithmetic(una, d);
    AddSubAreWrap(Wrap(una), d);
    WrapNear(Wrap(una) + d);
    assert ack == Wrap(una + d);
    AddSubAreWrap(d, 1);
    WrapNear(d - 1);
    WrapArithmetic(nxt, una + d);
    WrapNear(nxt - una - d);
  }

  // Timestamps --------------------------------------------------------------

  function Bound(lower: int, middle: int, upper: int): int {
    Min(Max(lower, middle), upper)
  }

  predicate TimeIsBetween(later: u32, middle: u32, earlier: u32) {
    if earlier <= later then earlier <= middle && middle <= later
    else !(later < middle && middle < earlier)
  }

  /** Conversion of a C integer to `gint32`. */
  function ToSigned32(x: int): int {
    var r := x % 0x1_0000_0000;
    if r < 0x8000_0000 then r else r - 0x1_0000_0000
  }

  function TimeDiff(later: u32, earlier: u32): int {
    var last: u32 := 0xFFFF_FFFF;
    var half := 0x8000_0000;
    if TimeIsBetween(Add(earlier, half), later, earlier) then
      if earlier <= later then ToSigned32(Sub(later, earlier))
      else ToSigned32(Add(Add(later, Sub(last, earlier)), 1))
    else
      if later <= earlier then ToSigned32(0 - Sub(earlier, later))
      else ToSigned32(0 - Add(Add(earlier, Sub(last, later)), 1))
  }

  /** The explicit wrap-around branch is subtraction modulo 2^32. */
  lemma WrapAroundGap(x: u32, y: u32)
    requires x < y
    ensures Add(Add(x, Sub(0xFFFF_FFFF, y)), 1) == Sub(x, y) == x - y + MODULUS
  {
    hide Wrap, Sub, Add;
    AddSubAreWrap(0xFFFF_FFFF, y);
    WrapNear(0xFFFF_FFFF - y);
    AddSubAreWrap(x, Sub(0xFFFF_FFFF, y));
    WrapNear(x + Sub(0xFFFF_FFFF, y));
    AddSubAreWrap(Add(x, Sub(0xFFFF_FFFF, y)), 1);
    WrapNear(Add(x, Sub(0xFFFF_FFFF, y)) + 1);
    AddSubAreWrap(x, y);
    WrapNear(x - y);
  }

  lemma SignedNear(x: int)
    requires -MODULUS <= x < MODULUS
    ensures ToSigned32(x) == if x < -0x8000_0000 then x + MODULUS
                             else if x < 0x8000_0000 then x else x - MODULUS
  {
  }

  /** The four-way case split computes the signed wrap-around difference. */
  lemma TimeDiffIsSignedDifference(later: u32, earlier: u32)
    ensures TimeDiff(later, earlier) == ToSigned32(later - earlier)
  {
    hide Wrap, Sub, Add, ToSigned32;
    AddSubAreWrap(earlier, 0x8000_0000);
    WrapNear(earlier + 0x8000_0000);
    AddSubAreWrap(later, earlier);
    WrapNear(later - earlier);
    AddSubAreWrap(earlier, later);
    WrapNear(earlier - later);
    if later < earlier {
      WrapAroundGap(later, earlier);
    } else if earlier < later {
      WrapAroundGap(earlier, later);
    }
    SignedNear(later - earlier);
    SignedNear(Sub(later, earlier));
    SignedNear(0 - Sub(earlier, later));
  }

  /** Two instants less than 2^31 ms apart are ordered correctly by every timer
      test of the form `time_diff (deadline, now) <= 0`. */
  lemma TimeDiffOrdersInstants(deadline: int, now: int)
    requires -0x8000_0000 <= deadline - now <= 0x7FFF_FFFF
    ensures TimeDiff(Wrap(deadline), Wrap(now)) == deadline - now
  {
    hide Wrap, Sub, TimeDiff, ToSigned32;
    TimeDiffIsSignedDifference(Wrap(deadline), Wrap(now));
    WrapArithmetic(deadline, now);
    AddSubAreWrap(Wrap(deadline), Wrap(now));
    WrapNear(Wrap(deadline) - Wrap(now));
    WrapNear(deadline - now);
    SignedNear(Wrap(deadline) - Wrap(now));
  }
}
