/** The Gray-Scott kinetics of `updateA` and `updateB`, one explicit Euler step
    of length `deltaTime`, over the reals. */
module Kinetics {

  const DiffusionRateA: real := 1.0
  const DiffusionRateB: real := 0.5
  const FeedRate: real := 0.0545
  const KillRate: real := 0.062
  const DeltaTime: real := 1.0

  /** `updateA(a, b, aDiffusion)`. */
  function UpdateA(a: real, b: real, aDiffusion: real): real
  {
    a + ((DiffusionRateA * aDiffusion) - (a * b * b) + (FeedRate * (1.0 - a))) * DeltaTime
  }

  /** `updateB(a, b, bDiffusion)`. */
  function UpdateB(a: real, b: real, bDiffusion: real): real
  {
    b + (((DiffusionRateB * bDiffusion) + (a * b * b)) - ((KillRate + FeedRate) * b)) * DeltaTime
  }

  /** With no B and no diffusion, a cell at a = 1, b = 0 stays there. */
  lemma RestIsFixedPoint()
    ensures UpdateA(1.0, 0.0, 0.0) == 1.0
    ensures UpdateB(1.0, 0.0, 0.0) == 0.0
  {
  }

  /** Without B there is no reaction: B only receives its diffusion, and A
      relaxes towards 1 by the factor 1 - feed rate (when it does not diffuse). */
  lemma NoReactionWithoutB(a: real, bDiffusion: real)
    ensures UpdateB(a, 0.0, bDiffusion) == DiffusionRateB * bDiffusion * DeltaTime
    ensures UpdateA(a, 0.0, 0.0) - 1.0 == (1.0 - FeedRate) * (a - 1.0)
  {
  }

  /** The reaction a·b² moves matter from A to B and cancels in the total:
      a + b changes only by diffusion, feed and kill. */
  lemma ReactionConservesTotal(a: real, b: real, aDiffusion: real, bDiffusion: real)
    ensures UpdateA(a, b, aDiffusion) + UpdateB(a, b, bDiffusion)
         == a + b + (DiffusionRateA * aDiffusion + DiffusionRateB * bDiffusion
                     + FeedRate * (1.0 - a) - (KillRate + FeedRate) * b) * DeltaTime
  {
  }
}
