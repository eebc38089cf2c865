/**
 * Quantisation of a cell density onto the glyph ramp (`selectAsciiCharacter`
 * in vidtoascii.c).
 */
module Glyphs {

  import Arith
  import opened Pixels

  /** The ramp `main` uses, from sparsest to densest glyph (for a black background). */
  const GrayRamp: seq<char> := " .:~+*#$"

  function Abs(x: int): nat {
    if x < 0 then -x else x
  }

  /**
   * Ramp index round((density / 255.0) * (n - 1)), computed exactly in integers as
   * floor((2*density*(n - 1) + 255) / 510), i.e. floor(x + 1/2) for the
   * non-negative x = density*(n - 1)/255.
   */
  function RampIndex(density: uint8, n: nat): (i: nat)
    requires n >= 1
    ensures i <= n - 1
    ensures density == 0 ==> i == 0
    ensures density == 255 ==> i == n - 1
  {
    Arith.MulMono(density, 255, n - 1, n - 1);
    (2 * density * (n - 1) + 255) / 510
  }

  /**
   * RampIndex is round(density*(n - 1)/255): it lies less than half a step
   * from that value, and every other integer lies more than half a step away,
   * so no tie can occur and the rounding mode for halves never matters.
   */
  lemma RampIndexNearest(density: uint8, n: nat, k: int)
    requires n >= 1
    ensures Abs(2 * density * (n - 1) - 510 * RampIndex(density, n)) < 255
    ensures k != RampIndex(density, n) ==> Abs(2 * density * (n - 1) - 510 * k) > 255
  {
    var t := 2 * density * (n - 1);
    var i := RampIndex(density, n);
    assert t + 255 == 510 * i + (t + 255) % 510;
    assert t % 2 == 0 by {
      assert t == 2 * (density * (n - 1));
    }
    assert t - 510 * i != -255 by {
      assert (t - 510 * i) % 2 == 0;
    }
  }

  /** A denser cell never gets a sparser glyph. */
  lemma RampIndexMonotone(d1: uint8, d2: uint8, n: nat)
    requires n >= 1 && d1 <= d2
    ensures RampIndex(d1, n) <= RampIndex(d2, n)
  {
    Arith.MulMono(d1, d2, n - 1, n - 1);
    assert 2 * d1 * (n - 1) <= 2 * d2 * (n - 1);
    Arith.DivMono(2 * d1 * (n - 1) + 255, 2 * d2 * (n - 1) + 255, 510);
  }

  /** The glyph chosen for a density; it is always one of the ramp's glyphs. */
  function Glyph(density: uint8, ramp: seq<char>): (c: char)
    requires |ramp| >= 1
    ensures c in ramp
  {
    ramp[RampIndex(density, |ramp|)]
  }

  /** `selectAsciiCharacter`: stores the glyph for `density` in slot `charIndex` and nowhere else. */
  method SelectAsciiCharacter(density: uint8, ramp: seq<char>, characterData: array<char>, charIndex: nat)
    requires |ramp| >= 1
    requires charIndex < characterData.Length
    modifies characterData
    ensures characterData[..] == old(characterData[..])[charIndex := Glyph(density, ramp)]
  {
    var rampSize := |ramp|;
    var index := RampIndex(density, rampSize);
    characterData[charIndex] := ramp[index];
  }
}
