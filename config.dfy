/** The immutable game configuration and the fixed bounds a configuration is
    validated against. foodPerPlayer and deadFoodProb are Java doubles; here
    they are exact reals. */
module Config {

  datatype GameConfig = GameConfig(
    width: int,
    height: int,
    foodStatic: int,
    foodPerPlayer: real,
    iterationDelayMs: int,
    deadFoodProb: real,
    pingDelayMs: int,
    nodeTimeoutMs: int)

  const MINIMALS: GameConfig := GameConfig(5, 5, 0, 0.0, 1, 0.0, 1, 1)
  const MAXIMUMS: GameConfig := GameConfig(300, 300, 300, 300.0, 10000, 1.0, 10000, 10000)

  /** The no-argument constructor's configuration. */
  const DEFAULT: GameConfig := GameConfig(100, 100, 1, 1.0, 1, 0.1, 100, 800)

  predicate InBounds(c: GameConfig) {
    && MINIMALS.width <= c.width <= MAXIMUMS.width
    && MINIMALS.height <= c.height <= MAXIMUMS.height
    && MINIMALS.foodStatic <= c.foodStatic <= MAXIMUMS.foodStatic
    && MINIMALS.foodPerPlayer <= c.foodPerPlayer <= MAXIMUMS.foodPerPlayer
    && MINIMALS.iterationDelayMs <= c.iterationDelayMs <= MAXIMUMS.iterationDelayMs
    && MINIMALS.deadFoodProb <= c.deadFoodProb <= MAXIMUMS.deadFoodProb
    && MINIMALS.pingDelayMs <= c.pingDelayMs <= MAXIMUMS.pingDelayMs
    && MINIMALS.nodeTimeoutMs <= c.nodeTimeoutMs <= MAXIMUMS.nodeTimeoutMs
  }

  /** The lower bounds lie below the upper bounds, field by field, so the
      bounds admit some configuration. */
  lemma MinimalsBelowMaximums()
    ensures MINIMALS.width <= MAXIMUMS.width && MINIMALS.height <= MAXIMUMS.height
    ensures MINIMALS.foodStatic <= MAXIMUMS.foodStatic
    ensures MINIMALS.foodPerPlayer <= MAXIMUMS.foodPerPlayer
    ensures MINIMALS.iterationDelayMs <= MAXIMUMS.iterationDelayMs
    ensures MINIMALS.deadFoodProb <= MAXIMUMS.deadFoodProb
    ensures MINIMALS.pingDelayMs <= MAXIMUMS.pingDelayMs
    ensures MINIMALS.nodeTimeoutMs <= MAXIMUMS.nodeTimeoutMs
    ensures InBounds(MINIMALS) && InBounds(MAXIMUMS)
  {
  }

  /** The default configuration passes validation: a 100 by 100 grid, one
      static food, one food per player, one millisecond per tick, 100 ms ping
      interval, 800 ms node timeout. */
  lemma DefaultInBounds()
    ensures InBounds(DEFAULT)
    ensures DEFAULT.width == 100 && DEFAULT.height == 100 && DEFAULT.foodStatic == 1
    ensures DEFAULT.iterationDelayMs == 1 && DEFAULT.pingDelayMs == 100 && DEFAULT.nodeTimeoutMs == 800
  {
  }

  /** A validated configuration has a grid of at least 5 by 5, so the
      floor-modulo wrap of the simulation is well defined, and a dead-food
      probability that is a probability. */
  lemma InBoundsGridPositive(c: GameConfig)
    requires InBounds(c)
    ensures c.width >= 5 && c.height >= 5
    ensures 0.0 <= c.deadFoodProb <= 1.0 && c.foodPerPlayer >= 0.0
  {
  }
}
