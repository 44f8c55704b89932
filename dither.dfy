/**
 * The ordered-dithering decision of `dither` (src/main.rs): a pixel shows the
 * nearest palette colour when the mix ratio is below a per-position
 * threshold read from a fixed 9-entry dispersion table, and the second
 * nearest otherwise.
 */
module OrderedDither {
  import opened Colors

  /** A Rust `i32`. */
  type i32 = v: int | -0x8000_0000 <= v < 0x8000_0000

  /**
   * Two's-complement wrap-around of an i32 result, as a release build
   * computes `x - y * 3`.
   */
  function Wrap(v: int): i32 {
    (v + 0x8000_0000) % 0x1_0000_0000 - 0x8000_0000
  }

  /** Wrapping keeps an exact result that fits an i32. */
  lemma WrapInRange(v: int)
    requires -0x8000_0000 <= v < 0x8000_0000
    ensures Wrap(v) == v
  {
  }

  /** Wrapping changes a value by a multiple of 2^32. */
  lemma WrapIsCongruent(v: int)
    ensures (Wrap(v) - v) % 0x1_0000_0000 == 0 && (v - Wrap(v)) % 0x1_0000_0000 == 0
  {
    var q := (v + 0x8000_0000) / 0x1_0000_0000;
    assert Wrap(v) - v == -q * 0x1_0000_0000;
    assert v - Wrap(v) == q * 0x1_0000_0000;
  }

  const DispersionMatrixSize: nat := 9

  /** The dispersion table; a permutation of 1..9. */
  const Dispersed: seq<nat> := [1, 7, 4, 5, 8, 3, 6, 2, 9]

  /** An f32 ratio as it reaches the comparison: a real number or NaN. */
  datatype Mix = Finite(value: real) | NaN

  /** `i32::unsigned_abs`. */
  function UnsignedAbs(v: int): nat {
    if v < 0 then -v else v
  }

  /** The table index `|x - 3y| mod 9`, for every pair of i32 coordinates. */
  function DitherIndex(x: i32, y: i32): (idx: nat)
    ensures idx < |Dispersed|
  {
    UnsignedAbs(Wrap(x - Wrap(y * 3))) % DispersionMatrixSize
  }

  /** The threshold `DISPERSED[idx] / 9` at a position. */
  function Threshold(x: i32, y: i32): (t: real)
    ensures 0.0 < t <= 1.0
  {
    var idx := DitherIndex(x, y);
    assert idx in {0, 1, 2, 3, 4, 5, 6, 7, 8};
    Dispersed[idx] as real / DispersionMatrixSize as real
  }

  /** The comparison `mix < threshold`; false for NaN, as for an IEEE comparison. */
  predicate PicksMain(x: i32, y: i32, mix: Mix) {
    mix.Finite? && mix.value < Threshold(x, y)
  }

  /** `dither`: the main colour when the mix is below the position's threshold. */
  function Dither(x: i32, y: i32, mainColor: Rgb, alternativeColor: Rgb, mix: Mix): (c: Rgb)
    ensures c == mainColor || c == alternativeColor
    ensures mainColor != alternativeColor ==> (c == mainColor <==> PicksMain(x, y, mix))
  {
    if PicksMain(x, y, mix) then mainColor else alternativeColor
  }

  /** Two values congruent modulo 2^32 wrap to the same i32. */
  lemma WrapCongruent(u: int, v: int)
    requires (u - v) % 0x1_0000_0000 == 0
    ensures Wrap(u) == Wrap(v)
  {
    var k := (u - v) / 0x1_0000_0000;
    assert u == v + k * 0x1_0000_0000;
    assert Wrap(u) - Wrap(v) == (u + 0x8000_0000) % 0x1_0000_0000 - (v + 0x8000_0000) % 0x1_0000_0000;
    var p, q := (u + 0x8000_0000) / 0x1_0000_0000, (v + 0x8000_0000) / 0x1_0000_0000;
    assert (Wrap(u) - Wrap(v)) == (u - v) - (p - q) * 0x1_0000_0000;
  }

  /** The index is computed as the same function of the exact difference x - 3y. */
  lemma {:induction false} IndexOfDifference(x: i32, y: i32)
    ensures DitherIndex(x, y) == UnsignedAbs(Wrap(x - 3 * y)) % DispersionMatrixSize
  {
    WrapIsCongruent(y * 3);
    WrapCongruent(x - Wrap(y * 3), x - 3 * y);
  }

  /** Without overflow, the index is exactly `|x - 3y| mod 9`. */
  lemma IndexWithoutOverflow(x: i32, y: i32)
    requires -0x8000_0000 <= x - 3 * y < 0x8000_0000
    ensures DitherIndex(x, y) == UnsignedAbs(x - 3 * y) % 9
  {
    IndexOfDifference(x, y);
    WrapInRange(x - 3 * y);
  }

  /** Moving three pixels right and one down keeps the decision: x - 3y is unchanged. */
  lemma DiagonalShift(x: i32, y: i32, mix: Mix)
    requires x + 3 < 0x8000_0000 && y + 1 < 0x8000_0000
    ensures DitherIndex(x + 3, y + 1) == DitherIndex(x, y)
    ensures PicksMain(x + 3, y + 1, mix) == PicksMain(x, y, mix)
  {
    IndexOfDifference(x, y);
    IndexOfDifference(x + 3, y + 1);
  }

  /**
   * The pattern is mirrored about the line x = 3y: the point at the same
   * distance on the other side of it in the row gets the same threshold,
   * even when x - 3y wraps around.
   */
  lemma MirrorAboutDiagonal(x: i32, y: i32)
    requires -0x8000_0000 <= 6 * y - x < 0x8000_0000
    ensures DitherIndex(6 * y - x, y) == DitherIndex(x, y)
  {
    IndexOfDifference(x, y);
    IndexOfDifference(6 * y - x, y);
    var w: int := Wrap(x - 3 * y);
    WrapIsCongruent(x - 3 * y);
    WrapCongruent(3 * y - x, -w);
    WrapInRange(-w);
  }

  /** A perfect match (mix 0) keeps the main colour everywhere: every threshold is at least 1/9. */
  lemma ZeroMixKeepsMain(x: i32, y: i32)
    ensures PicksMain(x, y, Finite(0.0))
  {
  }

  /** A mix of 1 or more picks the alternative everywhere: the largest threshold is 9/9 and the test is strict. */
  lemma FullMixPicksAlternative(x: i32, y: i32, m: real)
    requires m >= 1.0
    ensures !PicksMain(x, y, Finite(m))
  {
  }

  /** NaN never compares below a threshold, so it always yields the alternative. */
  lemma NaNPicksAlternative(x: i32, y: i32, mainColor: Rgb, alternativeColor: Rgb)
    ensures Dither(x, y, mainColor, alternativeColor, NaN) == alternativeColor
  {
  }

  /** Lowering the mix never turns a main-colour pixel into an alternative one. */
  lemma MonotoneInMix(x: i32, y: i32, m: real, m': real)
    requires m' <= m && PicksMain(x, y, Finite(m))
    ensures PicksMain(x, y, Finite(m'))
  {
  }

  /**
   * Neighbouring pixels can disagree: at mix 1/2 the pixel at (0, 0)
   * (threshold 1/9) takes the alternative while (1, 0) (threshold 7/9)
   * keeps the main colour.
   */
  lemma NeighboursDisagree(mainColor: Rgb, alternativeColor: Rgb)
    ensures Dither(0, 0, mainColor, alternativeColor, Finite(0.5)) == alternativeColor
    ensures Dither(1, 0, mainColor, alternativeColor, Finite(0.5)) == mainColor
  {
    ThresholdAt(0, 0, 1.0 / 9.0);
    ThresholdAt(1, 0, 7.0 / 9.0);
  }

  /** The threshold at a position where x - 3y does not overflow, read off the table. */
  lemma ThresholdAt(x: i32, y: i32, t: real)
    requires -0x8000_0000 <= x - 3 * y < 0x8000_0000
    requires t == Dispersed[UnsignedAbs(x - 3 * y) % 9] as real / 9.0
    ensures Threshold(x, y) == t
  {
    IndexWithoutOverflow(x, y);
  }

  /** The table holds every value 1..9 exactly once. */
  lemma DispersedIsPermutation()
    ensures multiset(Dispersed) == multiset{1, 2, 3, 4, 5, 6, 7, 8, 9}
  {
  }

  /**
   * The table entries (thresholds times 9) used by the nine pixels
   * x0 .. x0 + 8 of row y.
   */
  function WindowEntries(x0: i32, y: i32): (w: seq<nat>)
    requires x0 + 8 < 0x8000_0000
    ensures |w| == 9
  {
    seq(9, k requires 0 <= k < 9 => Dispersed[DitherIndex(x0 + k, y)])
  }

  /** Within a row, on or to the right of the line x = 3y, the index rises by one per pixel, modulo 9. */
  lemma IndexAlongRow(x0: i32, y: i32, k: nat)
    requires x0 + k < 0x8000_0000
    requires 0 <= x0 - 3 * y && x0 + k - 3 * y < 0x8000_0000
    ensures DitherIndex(x0 + k, y) == ((x0 - 3 * y) % 9 + k) % 9
  {
    IndexWithoutOverflow(x0 + k, y);
    assert UnsignedAbs(x0 + k - 3 * y) == (x0 - 3 * y) + k;
    ShiftModNine(x0 - 3 * y, k);
  }

  /** Adding k after reducing modulo 9 gives the same residue as adding it before. */
  lemma ShiftModNine(v: nat, k: nat)
    ensures (v + k) % 9 == (v % 9 + k) % 9
  {
    var q := v / 9;
    assert v + k == 9 * q + (v % 9 + k);
  }

  /** The k-th entry of the table rotated left by s. */
  lemma RotatedAt(s: nat, k: nat)
    requires s < 9 && k < 9
    ensures (Dispersed[s..] + Dispersed[..s])[k] == Dispersed[(s + k) % 9]
  {
    var rotated := Dispersed[s..] + Dispersed[..s];
    if k < 9 - s {
      assert rotated[k] == Dispersed[s..][k] == Dispersed[s + k];
      assert (s + k) % 9 == s + k;
    } else {
      assert rotated[k] == Dispersed[..s][k - (9 - s)] == Dispersed[s + k - 9];
      assert (s + k) % 9 == s + k - 9;
    }
  }

  /** On or to the right of the line x = 3y, the window reads the table rotated left by (x0 - 3y) mod 9. */
  lemma WindowIsRotation(x0: i32, y: i32)
    requires x0 + 8 < 0x8000_0000
    requires 0 <= x0 - 3 * y && x0 + 8 - 3 * y < 0x8000_0000
    ensures var s := (x0 - 3 * y) % 9;
            WindowEntries(x0, y) == Dispersed[s..] + Dispersed[..s]
  {
    var s := (x0 - 3 * y) % 9;
    var w, rotated := WindowEntries(x0, y), Dispersed[s..] + Dispersed[..s];
    assert |rotated| == 9;
    forall k | 0 <= k < 9
      ensures w[k] == rotated[k]
    {
      IndexAlongRow(x0, y, k);
      RotatedAt(s, k);
      assert w[k] == Dispersed[DitherIndex(x0 + k, y)];
    }
    assert w == rotated;
  }

  /** Rotating the table keeps its multiset of values. */
  lemma RotationKeepsValues(s: nat)
    requires s <= |Dispersed|
    ensures multiset(Dispersed[s..] + Dispersed[..s]) == multiset(Dispersed)
  {
    assert Dispersed == Dispersed[..s] + Dispersed[s..];
  }

  /** A sequence read backwards. */
  function Reversed(s: seq<nat>): (r: seq<nat>)
    ensures |r| == |s|
    ensures forall i | 0 <= i < |s| :: r[i] == s[|s| - 1 - i]
  {
    if s == [] then [] else Reversed(s[1..]) + [s[0]]
  }

  /** Reading backwards keeps the multiset of values. */
  lemma {:induction false} ReversedKeepsValues(s: seq<nat>)
    ensures multiset(Reversed(s)) == multiset(s)
  {
    if s != [] {
      ReversedKeepsValues(s[1..]);
      assert s == [s[0]] + s[1..];
    }
  }

  /** Within a row, on or to the left of the line x = 3y, the index falls by one per pixel, modulo 9. */
  lemma IndexAlongRowLeft(x0: i32, y: i32, k: nat)
    requires k <= 8 && x0 + 8 < 0x8000_0000
    requires -0x8000_0000 <= x0 - 3 * y && x0 + 8 - 3 * y <= 0
    ensures DitherIndex(x0 + k, y) == ((3 * y - x0 - 8) % 9 + (8 - k)) % 9
  {
    IndexWithoutOverflow(x0 + k, y);
    assert UnsignedAbs(x0 + k - 3 * y) == (3 * y - x0 - 8) + (8 - k);
    ShiftModNine(3 * y - x0 - 8, 8 - k);
  }

  /** On or to the left of the line x = 3y, the window reads a rotation of the table backwards. */
  lemma WindowIsReversedRotation(x0: i32, y: i32)
    requires x0 + 8 < 0x8000_0000
    requires -0x8000_0000 <= x0 - 3 * y && x0 + 8 - 3 * y <= 0
    ensures var s := (3 * y - x0 - 8) % 9;
            WindowEntries(x0, y) == Reversed(Dispersed[s..] + Dispersed[..s])
  {
    var s := (3 * y - x0 - 8) % 9;
    var w, rotated := WindowEntries(x0, y), Dispersed[s..] + Dispersed[..s];
    var back := Reversed(rotated);
    assert |back| == 9;
    forall k | 0 <= k < 9
      ensures w[k] == back[k]
    {
      IndexAlongRowLeft(x0, y, k);
      RotatedAt(s, 8 - k);
      assert w[k] == Dispersed[DitherIndex(x0 + k, y)];
      assert back[k] == rotated[8 - k];
    }
    assert w == back;
  }

  /**
   * Nine consecutive pixels of a row, all on or to the right of the line
   * x = 3y or all on or to the left of it, use each of the nine thresholds
   * exactly once: the window reads a rotation of the table, forwards on the
   * right and backwards on the left.
   */
  lemma {:induction false} WindowUsesEveryThreshold(x0: i32, y: i32)
    requires x0 + 8 < 0x8000_0000
    requires (0 <= x0 - 3 * y && x0 + 8 - 3 * y < 0x8000_0000)
             || (-0x8000_0000 <= x0 - 3 * y && x0 + 8 - 3 * y <= 0)
    ensures multiset(WindowEntries(x0, y)) == multiset{1, 2, 3, 4, 5, 6, 7, 8, 9}
  {
    DispersedIsPermutation();
    if 0 <= x0 - 3 * y {
      WindowIsRotation(x0, y);
      RotationKeepsValues((x0 - 3 * y) % 9);
    } else {
      var s := (3 * y - x0 - 8) % 9;
      WindowIsReversedRotation(x0, y);
      ReversedKeepsValues(Dispersed[s..] + Dispersed[..s]);
      RotationKeepsValues(s);
    }
  }
}
