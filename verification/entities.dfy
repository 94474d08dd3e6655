/** Optional values, standing for Swift's `T?`. */
module Options {

  datatype Option<+T> = None | Some(value: T)
}

/**
 The records the game engine works on: bubbles, the floating point effects
 shown after a pop, and the saved player scores.
 */
module Entities {

  /** The five bubble colours, in the order of the spawn colour table. */
  datatype Colour = Red | Pink | Green | Blue | Black

  /** Radius of every bubble, in screen points. */
  const Radius: int := 40

  /** Two bubbles closer than this in x are overlap candidates. */
  const Diameter: int := 2 * Radius

  /**
   A bubble on the field. `id` stands for its UUID and `creationTime` for the
   `Date` it was created at, counted in a fixed integer time unit. Only the x
   coordinate is kept: the y coordinate, the speed and the last tapped
   position serve the animation alone.
   */
  datatype Bubble = Bubble(
    id: nat,
    x: int,
    colour: Colour,
    isPopped: bool,
    point: int,
    creationTime: int)

  /** A "+points" marker shown where a bubble was popped. */
  datatype PointEffect = PointEffect(id: nat, points: int, x: int, y: int)

  /** One saved result: the player's name and final score. */
  datatype PlayerScore = PlayerScore(name: string, score: int)

  function BubbleKey(b: Bubble): nat { b.id }

  function EffectKey(e: PointEffect): nat { e.id }

  function Abs(n: int): nat { if n < 0 then -n else n }
}
