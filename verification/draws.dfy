/** Random input: every `Math.random()` call of the page scripts becomes a parameter of this type. */
module Draws {

  /** One `Math.random()` result, a real in [0, 1). */
  type Unit = r: real | 0.0 <= r < 1.0 witness 0.0
}
