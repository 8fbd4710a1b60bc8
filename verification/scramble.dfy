/**
 * The `ScrambleText` animation. Each tick of its interval builds one frame:
 * every position of the target text shows either the target character or a
 * random glyph, the chance of the target character growing with the step;
 * from step 20 on the frame is the target itself. `Math.random` is an
 * oracle: the stream of draws the frame consumes, in the order the code
 * makes them.
 */
module Scramble {
  import opened Numbers

  /** A value `Math.random()` can return. */
  type Draw = r: real | 0.0 <= r < 1.0

  /** The glyphs a scrambled position can show. */
  const Glyphs: string := "ABCDEFGHIJKLMNOPQRSTUVWXYZabcdefghijklmnopqrstuvwxyz0123456789@.-"

  /** Number of frames before the text settles. */
  const Steps: nat := 20

  /** `chars[Math.floor(u * chars.length)]` */
  function GlyphFor(u: Draw): (c: char)
    ensures c in Glyphs
  {
    var i := (u * |Glyphs| as real).Floor;
    assert 0 <= i < |Glyphs|;
    Glyphs[i]
  }

  /**
   * The frame's characters for positions `i` up to `bound`, drawing from
   * `rand` starting at draw `next`. A position past the target's end adds
   * nothing and draws nothing; at or after the last step the target
   * character is taken without a draw; otherwise one draw decides whether the
   * target character shows, and a second one picks the glyph when it does not.
   */
  function FrameFrom(target: string, bound: nat, step: int, rand: nat -> Draw, i: nat, next: nat): (r: string)
    requires bound >= |target|
    ensures i >= |target| ==> r == ""
    ensures i <= |target| ==> |r| == |target| - i
    ensures i <= |target| ==> forall j :: 0 <= j < |r| ==> r[j] == target[i + j] || r[j] in Glyphs
    ensures i <= |target| && step >= Steps ==> r == target[i..]
    ensures i <= |target| && step <= 0 ==> forall j :: 0 <= j < |r| ==> r[j] in Glyphs
    decreases bound - i
  {
    if i >= bound then ""
    else if i < |target| then
      if step >= Steps then
        [target[i]] + FrameFrom(target, bound, step, rand, i + 1, next)
      else if rand(next) < step as real / Steps as real then
        [target[i]] + FrameFrom(target, bound, step, rand, i + 1, next + 1)
      else
        [GlyphFor(rand(next + 1))] + FrameFrom(target, bound, step, rand, i + 1, next + 2)
    else FrameFrom(target, bound, step, rand, i + 1, next)
  }

  /**
   * One frame at `currentStep == step`: the loop runs over the longer of the
   * two texts but only positions inside the target contribute, so the frame
   * always has the target's length.
   */
  function Frame(original: string, target: string, step: int, rand: nat -> Draw): (r: string)
    ensures |r| == |target|
    ensures forall j :: 0 <= j < |r| ==> r[j] == target[j] || r[j] in Glyphs
    ensures step >= Steps ==> r == target
    ensures step <= 0 ==> forall j :: 0 <= j < |r| ==> r[j] in Glyphs
  {
    FrameFrom(target, Max(|original|, |target|), step, rand, 0, 0)
  }

  /**
   * The text on screen once the effect has run `ticks` interval callbacks
   * (`shown` is what was on screen before). Without scrambling the target is
   * set at once; otherwise tick `n` shows the frame for step `n`, and the tick
   * at step 20 sets the target and clears the interval.
   */
  function Displayed(shown: string, original: string, target: string, isScrambling: bool,
                     ticks: nat, rand: nat -> Draw): (r: string)
    ensures !isScrambling ==> r == target
    ensures ticks > Steps ==> r == target
    ensures ticks > 0 ==> |r| == |target|
    ensures isScrambling && ticks == 0 ==> r == shown
  {
    if !isScrambling then target
    else if ticks == 0 then shown
    else if ticks - 1 >= Steps then target
    else Frame(original, target, ticks - 1, rand)
  }

  /** The first frame hides every character behind a glyph. */
  lemma FirstFrameIsFullyScrambled(original: string, target: string, rand: nat -> Draw)
    ensures forall j :: 0 <= j < |target| ==> Frame(original, target, 0, rand)[j] in Glyphs
  {
  }

  /** Where the draws all fall below the step's threshold, the frame is the target. */
  lemma {:induction false} LowDrawsRevealTarget(target: string, bound: nat, step: int, rand: nat -> Draw, i: nat, next: nat)
    requires bound >= |target| && i <= |target|
    requires forall k :: next <= k ==> rand(k) < step as real / Steps as real
    ensures FrameFrom(target, bound, step, rand, i, next) == target[i..]
    decreases bound - i
  {
    if i < |target| {
      LowDrawsRevealTarget(target, bound, step, rand, i + 1, if step >= Steps then next else next + 1);
    }
  }

  /** Positions past the target's end neither add characters nor consume draws. */
  lemma {:induction false} BoundIsIrrelevant(target: string, b1: nat, b2: nat, step: int, rand: nat -> Draw, i: nat, next: nat)
    requires b1 >= |target| && b2 >= |target|
    ensures FrameFrom(target, b1, step, rand, i, next) == FrameFrom(target, b2, step, rand, i, next)
    decreases |target| - i
  {
    if i < |target| {
      var n := if step >= Steps then next
        else if rand(next) < step as real / Steps as real then next + 1
        else next + 2;
      BoundIsIrrelevant(target, b1, b2, step, rand, i + 1, n);
    }
  }

  /** The frame does not depend on the text being replaced, only on the target and the draws. */
  lemma FrameIgnoresOriginalText(a: string, b: string, target: string, step: int, rand: nat -> Draw)
    ensures Frame(a, target, step, rand) == Frame(b, target, step, rand)
  {
    BoundIsIrrelevant(target, Max(|a|, |target|), Max(|b|, |target|), step, rand, 0, 0);
  }
}
